/** Firmware upload (meshmesh/firmware.go): check, erase, write and verify a remote flash
    sector by sector, over a link that loses replies, then check the whole and boot.

    The remote device is part of the model. Its choices (which replies are lost, what a lost
    or refused request left behind) come from an arbitrary function, so what is proved of
    one run is proved of every run. MD5 is taken as collision free. */
module Firmware {
  import opened Basics

  type U32 = x: int | 0 <= x < 0x1_0000_0000

  const START: U32 := 0x80000
  const SECTOR: U32 := 4096
  const CHUNK: U32 := 1024

  /** A digest that differs for different data. */
  datatype Digest = Md5(data: seq<byte>)

  datatype Md5Reply = Md5Reply(erased: bool, md5: Digest)

  /** What becomes of a request. A lost one may have had any effect, or none, on the bytes it
      is about; after is what they hold then. A botched write is answered like a good one. */
  datatype Fate = Obeyed | Lost(after: seq<byte>) | Refused(after: seq<byte>) | Botched(after: seq<byte>)

  /** The requests the device got, with what the flash held when they came. */
  datatype Event =
    | Asked(address: nat, length: nat)
    | Erased(address: nat, length: nat)
    | Written(address: nat, data: seq<byte>, before: seq<byte>)
    | Booted(address: nat, image: seq<byte>)

  predicate Blank(s: seq<byte>) {
    forall i :: 0 <= i < |s| ==> s[i] == 0xFF
  }

  function Ones(n: nat): (s: seq<byte>)
    ensures |s| == n && Blank(s)
  {
    seq(n, _ => 0xFF)
  }

  // Programming a flash byte only clears bits.
  function Program(before: byte, data: byte): byte { before & data }

  function Programmed(before: seq<byte>, data: seq<byte>): (s: seq<byte>)
    requires |before| == |data|
    ensures |s| == |data|
  {
    seq(|data|, i requires 0 <= i < |data| => Program(before[i], data[i]))
  }

  lemma BlankTakesData(before: seq<byte>, data: seq<byte>)
    requires |before| == |data| && Blank(before)
    ensures Programmed(before, data) == data
  {
    forall i | 0 <= i < |data| ensures Programmed(before, data)[i] == data[i] {
      OnesAndByte(data[i]);
      assert before[i] == 0xFF;
    }
  }

  lemma OnesAndByte(b: byte)
    ensures Program(0xFF, b) == b
  {
  }

  function Splice(mem: seq<byte>, address: nat, s: seq<byte>): (m: seq<byte>)
    requires address + |s| <= |mem|
    ensures |m| == |mem| && m[address..address + |s|] == s
    ensures m[..address] == mem[..address] && m[address + |s|..] == mem[address + |s|..]
  {
    mem[..address] + s + mem[address + |s|..]
  }

  // The bytes a request left behind: any bytes, as many as it is about.
  function Leftover(after: seq<byte>, before: seq<byte>): (s: seq<byte>)
    ensures |s| == |before|
  {
    if |after| == |before| then after else before
  }

  class FlashDevice {
    const fate: nat -> Fate
    const emptyIsErased: bool  // what the flag says of a range of no bytes
    var mem: seq<byte>
    var clock: nat
    var lossesLeft: nat        // only so many replies are lost
    var log: seq<Event>

    constructor (fate: nat -> Fate, emptyIsErased: bool, mem: seq<byte>, lossesLeft: nat)
      ensures this.fate == fate && this.emptyIsErased == emptyIsErased
      ensures this.mem == mem && this.lossesLeft == lossesLeft && log == []
    {
      this.fate, this.emptyIsErased, this.mem, this.lossesLeft := fate, emptyIsErased, mem, lossesLeft;
      log, clock := [], 0;
    }

    function Next(): (f: Fate)
      reads this`clock, this`lossesLeft
      ensures f.Lost? ==> lossesLeft > 0
    {
      var f := fate(clock);
      if f.Lost? && lossesLeft == 0 then Obeyed else f
    }

    // A device that at worst loses replies.
    ghost predicate Obeys() {
      forall i :: fate(i).Obeyed? || fate(i).Lost?
    }

    predicate ReadsErased(s: seq<byte>) {
      if s == [] then emptyIsErased else Blank(s)
    }

    method GetMd5(address: nat, length: nat) returns (reply: Option<Md5Reply>)
      requires address + length <= |mem|
      modifies this`clock, this`lossesLeft, this`log
      ensures log == old(log) + [Asked(address, length)]
      ensures lossesLeft == old(lossesLeft) - if reply.None? then 1 else 0
      ensures var s := mem[address..address + length];
              reply.Some? ==> reply.value == Md5Reply(ReadsErased(s), Md5(s))
    {
      log := log + [Asked(address, length)];
      var f := Next();
      clock := clock + 1;
      if f.Lost? {
        lossesLeft := lossesLeft - 1;
        return None;
      }
      var s := mem[address..address + length];
      reply := Some(Md5Reply(ReadsErased(s), Md5(s)));
    }

    /** An erase that is answered as done is done: length bytes from address are 0xFF. */
    method Erase(address: nat, length: nat) returns (reply: Option<bool>)
      requires address + length <= |mem|
      modifies this
      ensures log == old(log) + [Erased(address, length)]
      ensures lossesLeft == old(lossesLeft) - if reply.None? then 1 else 0
      ensures SameOutside(old(mem), mem, address, address + length)
      ensures reply == Some(true) ==> mem[address..address + length] == Ones(length)
      ensures Obeys() ==> reply != Some(false)
    {
      log := log + [Erased(address, length)];
      var f := Next();
      clock := clock + 1;
      var before := mem[address..address + length];
      match f {
        case Lost(after) =>
          mem, lossesLeft := Splice(mem, address, Leftover(after, before)), lossesLeft - 1;
          return None;
        case Refused(after) =>
          mem := Splice(mem, address, Leftover(after, before));
          return Some(false);
        case _ =>
          mem := Splice(mem, address, Ones(length));
          return Some(true);
      }
    }

    /** The reply to a write is true when it failed. */
    method Write(address: nat, data: seq<byte>) returns (failed: Option<bool>)
      requires address + |data| <= |mem|
      modifies this
      ensures log == old(log) + [Written(address, data, old(mem)[address..address + |data|])]
      ensures lossesLeft == old(lossesLeft) - if failed.None? then 1 else 0
      ensures SameOutside(old(mem), mem, address, address + |data|)
      ensures Obeys() ==> failed != Some(true)
      ensures Obeys() && failed.Some? ==>
                mem[address..address + |data|] == Programmed(old(mem)[address..address + |data|], data)
    {
      var before := mem[address..address + |data|];
      log := log + [Written(address, data, before)];
      var f := Next();
      clock := clock + 1;
      match f {
        case Obeyed =>
          mem := Splice(mem, address, Programmed(before, data));
          return Some(false);
        case Lost(after) =>
          mem, lossesLeft := Splice(mem, address, Leftover(after, before)), lossesLeft - 1;
          return None;
        case Refused(after) =>
          mem := Splice(mem, address, Leftover(after, before));
          return Some(true);
        case Botched(after) =>
          mem := Splice(mem, address, Leftover(after, before));
          return Some(false);
      }
    }

    method EBoot(address: nat, length: nat) returns (ok: bool)
      requires address + length <= |mem|
      modifies this`clock, this`lossesLeft, this`log
      ensures log == old(log) + [Booted(address, mem[address..address + length])]
      ensures lossesLeft == old(lossesLeft) - if ok then 0 else 1
    {
      log := log + [Booted(address, mem[address..address + length])];
      var f := Next();
      clock := clock + 1;
      ok := !f.Lost?;
      if !ok {
        lossesLeft := lossesLeft - 1;
      }
    }
  }

  ghost predicate SameOutside(m: seq<byte>, m': seq<byte>, lo: nat, hi: nat)
  {
    |m| == |m'| && lo <= hi <= |m| && m[..lo] == m'[..lo] && m[hi..] == m'[hi..]
  }

  // ---------------------------------------------------------------- what may be asked of the device

  /** A request that the upload of fw may make: erases are whole sectors of the image, writes
      put a piece of the image where it belongs and only onto erased bytes, and a boot finds
      the whole image in place. */
  ghost predicate Allowed(fw: seq<byte>, e: Event) {
    match e
    case Asked(_, _) => true
    case Erased(a, n) => n == SECTOR && START <= a < START + |fw| && (a - START) % SECTOR == 0
    case Written(a, data, before) =>
      && START <= a && a + |data| <= START + |fw| && 1 <= |data| <= CHUNK
      && data == fw[a - START..a - START + |data|]
      && Blank(before)
    case Booted(a, image) => a == START && image == fw
  }

  ghost predicate AllowedSince(fw: seq<byte>, log: seq<Event>, log': seq<Event>) {
    log <= log' && forall i :: |log| <= i < |log'| ==> Allowed(fw, log'[i])
  }

  lemma AllowedAlso(fw: seq<byte>, log: seq<Event>, log': seq<Event>, log'': seq<Event>)
    requires AllowedSince(fw, log, log') && AllowedSince(fw, log', log'')
    ensures AllowedSince(fw, log, log'')
  {
  }

  // The image sector that starts at index.
  function SectorAt(fw: seq<byte>, index: nat): (s: seq<byte>)
    requires index <= |fw|
    ensures |s| <= SECTOR
  {
    if index + SECTOR <= |fw| then fw[index..index + SECTOR] else fw[index..]
  }

  function SectorCount(fw: seq<byte>): nat { (|fw| + SECTOR - 1) / SECTOR }

  ghost predicate SectorStart(fw: seq<byte>, index: nat) {
    index < |fw| && index % SECTOR == 0
  }

  datatype Failure = FinalCheckLost | FinalMismatch | BootFailed | EraseRefused | WriteRefused | SectorMismatch

  datatype Warning = CheckLost | EraseLost | WriteLost | VerifyLost

  // ---------------------------------------------------------------- slices of the flash

  lemma SlicesFollow(m: seq<byte>, a: nat, b: nat, c: nat)
    requires a <= b <= c <= |m|
    ensures m[a..b] + m[b..c] == m[a..c]
  {
  }

  // Two changes side by side, and the part the second one leaves alone.
  lemma ChangesJoin(m0: seq<byte>, m1: seq<byte>, m2: seq<byte>, a: nat, b: nat, c: nat)
    requires SameOutside(m0, m1, a, b) && SameOutside(m1, m2, b, c)
    ensures SameOutside(m0, m2, a, c) && m2[a..b] == m1[a..b]
  {
    assert m2[a..b] == m2[..b][a..] == m1[..b][a..] == m1[a..b];
    assert m2[..a] == m2[..b][..a] == m1[..b][..a] == m1[..a];
    assert m1[c..] == m1[b..][c - b..] == m0[b..][c - b..] == m0[c..];
  }

  lemma WiderChange(m: seq<byte>, m': seq<byte>, lo: nat, hi: nat, lo': nat, hi': nat)
    requires SameOutside(m, m', lo, hi) && lo' <= lo && hi <= hi' <= |m|
    ensures SameOutside(m, m', lo', hi')
  {
    assert m[..lo'] == m[..lo][..lo'] == m'[..lo][..lo'] == m'[..lo'];
    assert m[hi'..] == m[hi..][hi' - hi..] == m'[hi..][hi' - hi..] == m'[hi'..];
  }

  lemma ChangesFollow(m0: seq<byte>, m1: seq<byte>, m2: seq<byte>, lo: nat, hi: nat)
    requires SameOutside(m0, m1, lo, hi) && SameOutside(m1, m2, lo, hi)
    ensures SameOutside(m0, m2, lo, hi)
  {
  }

  // What lies outside a change is still there.
  lemma OutsideStays(m: seq<byte>, m': seq<byte>, lo: nat, hi: nat, a: nat, b: nat)
    requires SameOutside(m, m', lo, hi) && a <= b <= |m| && (b <= lo || hi <= a)
    ensures m[a..b] == m'[a..b]
  {
    if b <= lo {
      SliceOfSlice(m, 0, lo, a, b);
      SliceOfSlice(m', 0, lo, a, b);
    } else {
      SliceOfSlice(m, hi, |m|, a - hi, b - hi);
      SliceOfSlice(m', hi, |m'|, a - hi, b - hi);
    }
  }

  // ---------------------------------------------------------------- chunks

  function ChunkCount(sector: seq<byte>): nat
    requires sector != []
  {
    (|sector| - 1) / CHUNK + 1
  }

  function ChunkEnd(sector: seq<byte>, i: nat): nat {
    if i * CHUNK <= |sector| then i * CHUNK else |sector|
  }

  function ChunkAt(sector: seq<byte>, i: nat): seq<byte> {
    sector[ChunkEnd(sector, i)..ChunkEnd(sector, i + 1)]
  }

  lemma ChunkLength(sector: seq<byte>, i: nat)
    ensures ChunkEnd(sector, i + 1) == ChunkEnd(sector, i) + |ChunkAt(sector, i)|
    ensures ChunkEnd(sector, i + 1) <= |sector| && ChunkEnd(sector, 0) == 0
  {
  }

  function Joined(sector: seq<byte>, n: nat): seq<byte> {
    if n == 0 then [] else Joined(sector, n - 1) + ChunkAt(sector, n - 1)
  }

  lemma {:induction false} JoinedIsPrefix(sector: seq<byte>, n: nat)
    ensures Joined(sector, n) == sector[..ChunkEnd(sector, n)]
  {
    if n > 0 {
      JoinedIsPrefix(sector, n - 1);
    }
  }

  /** The chunks partition the sector: none is empty or above the limit, only the last may be
      short, and end to end they are the sector. */
  lemma ChunksPartition(sector: seq<byte>)
    requires sector != []
    ensures Joined(sector, ChunkCount(sector)) == sector
    ensures forall i :: 0 <= i < ChunkCount(sector) ==> 1 <= |ChunkAt(sector, i)| <= CHUNK
    ensures forall i :: 0 <= i < ChunkCount(sector) - 1 ==> |ChunkAt(sector, i)| == CHUNK
  {
    JoinedIsPrefix(sector, ChunkCount(sector));
    assert ChunkEnd(sector, ChunkCount(sector)) == |sector|;
  }

  // The log of the writes of a sector onto erased flash.
  ghost predicate ChunksLogged(log: seq<Event>, log': seq<Event>, address: nat, sector: seq<byte>, n: nat) {
    && log <= log' && |log'| == |log| + n
    && forall i :: 0 <= i < n ==>
         var c := ChunkAt(sector, i); log'[|log| + i] == Written(address + ChunkEnd(sector, i), c, Ones(|c|))
  }

  // Behind the chunks written so far the range is still erased.
  lemma ErasedChunk(m0: seq<byte>, m1: seq<byte>, address: nat, sector: seq<byte>, i: nat)
    requires address + |sector| <= |m0| && Blank(m0[address..address + |sector|])
    requires SameOutside(m0, m1, address, address + ChunkEnd(sector, i))
    ensures var c := ChunkAt(sector, i); var a := address + ChunkEnd(sector, i);
            m1[a..a + |c|] == Ones(|c|) && Programmed(Ones(|c|), c) == c
  {
    hide SameOutside;
    var c, o := ChunkAt(sector, i), ChunkEnd(sector, i);
    ChunkLength(sector, i);
    OutsideStays(m0, m1, address, address + o, address + o, address + o + |c|);
    SliceOfSlice(m0, address, address + |sector|, o, o + |c|);
    assert m0[address..address + |sector|][o..o + |c|] == Ones(|c|);
    BlankTakesData(Ones(|c|), c);
  }

  lemma OneChunk(m0: seq<byte>, m1: seq<byte>, m2: seq<byte>, address: nat, sector: seq<byte>, i: nat)
    requires SameOutside(m0, m1, address, address + ChunkEnd(sector, i))
    requires SameOutside(m1, m2, address + ChunkEnd(sector, i), address + ChunkEnd(sector, i + 1))
    ensures SameOutside(m0, m2, address, address + ChunkEnd(sector, i + 1))
    ensures var o, o' := ChunkEnd(sector, i), ChunkEnd(sector, i + 1);
            m1[address..address + o] == sector[..o] && m2[address + o..address + o'] == ChunkAt(sector, i)
            ==> m2[address..address + o'] == sector[..o']
  {
    var o, o' := ChunkEnd(sector, i), ChunkEnd(sector, i + 1);
    ChangesJoin(m0, m1, m2, address, address + o, address + o');
    SlicesFollow(m2, address, address + o, address + o');
    assert sector[..o] + ChunkAt(sector, i) == sector[..o'];
  }

  lemma ChunkOfImage(fw: seq<byte>, index: nat, i: nat)
    requires index < |fw| && i < ChunkCount(SectorAt(fw, index))
    ensures var s := SectorAt(fw, index); var c, a := ChunkAt(s, i), index + ChunkEnd(s, i);
            1 <= |c| <= CHUNK && a + |c| <= |fw| && c == fw[a..a + |c|]
  {
    var s := SectorAt(fw, index);
    assert s == fw[index..index + |s|];
    SliceOfSlice(fw, index, index + |s|, ChunkEnd(s, i), ChunkEnd(s, i + 1));
  }

  lemma SliceOfSlice(s: seq<byte>, a: nat, b: nat, x: nat, y: nat)
    requires a <= b <= |s| && x <= y <= b - a
    ensures s[a..b][x..y] == s[a + x..a + y]
  {
    var l, r := s[a..b][x..y], s[a + x..a + y];
    assert |l| == |r| && forall k :: 0 <= k < |l| ==> l[k] == r[k];
  }

  lemma ChunkIsAllowed(fw: seq<byte>, index: nat, i: nat, log: seq<Event>, log': seq<Event>, log'': seq<Event>)
    requires SectorStart(fw, index) && i < ChunkCount(SectorAt(fw, index))
    requires ChunksLogged(log, log', START + index, SectorAt(fw, index), i) && AllowedSince(fw, log, log')
    requires var s := SectorAt(fw, index); var c := ChunkAt(s, i);
             log'' == log' + [Written(START + index + ChunkEnd(s, i), c, Ones(|c|))]
    ensures ChunksLogged(log, log'', START + index, SectorAt(fw, index), i + 1) && AllowedSince(fw, log, log'')
  {
    hide SectorAt, ChunkAt, ChunkEnd, ChunkCount;
    var s := SectorAt(fw, index);
    var c, o := ChunkAt(s, i), ChunkEnd(s, i);
    ChunkOfImage(fw, index, i);
    ChunkWriteIsAllowed(fw, index + o, c);
    hide Allowed;
    assert |log''| == |log'| + 1 && log''[|log'|] == Written(START + index + o, c, Ones(|c|));
  }

  lemma ChunkWriteIsAllowed(fw: seq<byte>, a: nat, c: seq<byte>)
    requires 1 <= |c| <= CHUNK && a + |c| <= |fw| && c == fw[a..a + |c|]
    ensures Allowed(fw, Written(START + a, c, Ones(|c|)))
  {
  }

  /** The first i chunks of a sector have been sent, when the flash was m0 and the log was
      log0 before; exact says that the device did what it was told each time. */
  ghost predicate ChunksSent(fw: seq<byte>, index: nat, i: nat, exact: bool,
                             m0: seq<byte>, m1: seq<byte>, log0: seq<Event>, log1: seq<Event>)
    requires index <= |fw|
  {
    var sector := SectorAt(fw, index);
    var o := ChunkEnd(sector, i);
    && SameOutside(m0, m1, START + index, START + index + o)
    && ChunksLogged(log0, log1, START + index, sector, i)
    && AllowedSince(fw, log0, log1)
    && (exact ==> m1[START + index..START + index + o] == sector[..o])
  }

  lemma ChunkSent(fw: seq<byte>, index: nat, i: nat, exact: bool, obeyed: bool,
                  m0: seq<byte>, m1: seq<byte>, m2: seq<byte>, log0: seq<Event>, log1: seq<Event>, log2: seq<Event>)
    requires SectorStart(fw, index) && i < ChunkCount(SectorAt(fw, index))
    requires START + index + |SectorAt(fw, index)| <= |m0|
    requires Blank(m0[START + index..START + index + |SectorAt(fw, index)|])
    requires ChunksSent(fw, index, i, exact, m0, m1, log0, log1)
    requires var s := SectorAt(fw, index); var c := ChunkAt(s, i); var a := START + index + ChunkEnd(s, i);
             && SameOutside(m1, m2, a, a + |c|) && log2 == log1 + [Written(a, c, m1[a..a + |c|])]
             && (obeyed ==> m2[a..a + |c|] == Programmed(m1[a..a + |c|], c))
    ensures ChunksSent(fw, index, i + 1, exact && obeyed, m0, m2, log0, log2)
  {
    hide Blank, Allowed, Programmed, AllowedSince, ChunksLogged, SameOutside, ChunkEnd, ChunkAt, SectorAt, ChunkCount;
    var s := SectorAt(fw, index);
    ChunkLength(s, i);
    ErasedChunk(m0, m1, START + index, s, i);
    ChunkIsAllowed(fw, index, i, log0, log1, log2);
    OneChunk(m0, m1, m2, START + index, s, i);
  }

  lemma SentIsWrites(fw: seq<byte>, index: nat, i: nat, exact: bool,
                     m0: seq<byte>, m1: seq<byte>, log0: seq<Event>, log1: seq<Event>)
    requires index <= |fw| && ChunksSent(fw, index, i, exact, m0, m1, log0, log1)
    ensures log1 == log0 + Writes(START + index, SectorAt(fw, index), i)
  {
    LoggedIsWrites(log0, log1, START + index, SectorAt(fw, index), i);
  }

  lemma NoChunkSent(fw: seq<byte>, index: nat, m: seq<byte>, log: seq<Event>)
    requires START + index <= |m| && index <= |fw|
    ensures ChunksSent(fw, index, 0, true, m, m, log, log)
  {
  }

  lemma AllChunksSent(fw: seq<byte>, index: nat, exact: bool,
                      m0: seq<byte>, m1: seq<byte>, log0: seq<Event>, log1: seq<Event>)
    requires SectorStart(fw, index) && SectorAt(fw, index) != []
    requires var s := SectorAt(fw, index); ChunksSent(fw, index, ChunkCount(s), exact, m0, m1, log0, log1)
    ensures var s := SectorAt(fw, index);
            var a := START + index;
            exact ==> SameOutside(m0, m1, a, a + |s|) && m1[a..a + |s|] == s
  {
    var s := SectorAt(fw, index);
    assert ChunkEnd(s, ChunkCount(s)) == |s| && s[..|s|] == s;
  }

  lemma SectorsFit(fw: seq<byte>, index: nat)
    requires SectorStart(fw, index)
    ensures index + |SectorAt(fw, index)| <= index + SECTOR <= SectorCount(fw) * SECTOR
    ensures index + |SectorAt(fw, index)| <= |fw| && SectorAt(fw, index) != []
  {
    assert index / SECTOR < SectorCount(fw);
  }

  // The first index bytes of the image are in place.
  ghost predicate Held(fw: seq<byte>, index: nat, m: seq<byte>) {
    index <= |fw| && START + index <= |m| && m[START..START + index] == fw[..index]
  }

  lemma StillHeld(fw: seq<byte>, index: nat, m: seq<byte>, m': seq<byte>, log: seq<Event>, log': seq<Event>)
    requires Held(fw, index, m) && Effect(fw, START + index, m, m', log, log')
    ensures Held(fw, index, m') && |m'| == |m|
  {
    OutsideStays(m, m', START + index, START + index + SECTOR, START, START + index);
  }

  lemma MoreHeld(fw: seq<byte>, index: nat, m: seq<byte>)
    requires Held(fw, index, m) && SectorStart(fw, index)
    requires var s := SectorAt(fw, index);
             START + index + |s| <= |m| && m[START + index..START + index + |s|] == s
    ensures var next := index + |SectorAt(fw, index)|;
            Held(fw, next, m) && (next == |fw| || SectorStart(fw, next))
  {
    var s := SectorAt(fw, index);
    SlicesFollow(m, START, START + index, START + index + |s|);
    assert fw[..index] + s == fw[..index + |s|];
  }

  lemma OnesStartBlank(m: seq<byte>, a: nat, n: nat, k: nat)
    requires a + n <= |m| && m[a..a + n] == Ones(n) && k <= n
    ensures Blank(m[a..a + k])
  {
    assert m[a..a + k] == m[a..a + n][..k];
  }

  /** What a request or several of them did while the sector at address a was being uploaded. */
  ghost predicate Effect(fw: seq<byte>, a: nat, m0: seq<byte>, m1: seq<byte>, log0: seq<Event>, log1: seq<Event>) {
    SameOutside(m0, m1, a, a + SECTOR) && AllowedSince(fw, log0, log1)
  }

  lemma EffectsFollow(fw: seq<byte>, a: nat, m0: seq<byte>, m1: seq<byte>, m2: seq<byte>,
                      log0: seq<Event>, log1: seq<Event>, log2: seq<Event>)
    requires Effect(fw, a, m0, m1, log0, log1) && Effect(fw, a, m1, m2, log1, log2)
    ensures Effect(fw, a, m0, m2, log0, log2)
  {
    hide Allowed;
    ChangesFollow(m0, m1, m2, a, a + SECTOR);
    AllowedAlso(fw, log0, log1, log2);
  }

  lemma AskingHasNoEffect(fw: seq<byte>, a: nat, m: seq<byte>, log: seq<Event>, address: nat, length: nat)
    requires a + SECTOR <= |m|
    ensures Effect(fw, a, m, m, log, log + [Asked(address, length)])
  {
  }

  lemma ChunksStayInside(fw: seq<byte>, index: nat, i: nat, exact: bool,
                         m0: seq<byte>, m1: seq<byte>, log0: seq<Event>, log1: seq<Event>)
    requires SectorStart(fw, index) && START + index + SECTOR <= |m0|
    requires ChunksSent(fw, index, i, exact, m0, m1, log0, log1)
    ensures Effect(fw, START + index, m0, m1, log0, log1)
  {
    hide AllowedSince;
    var o := ChunkEnd(SectorAt(fw, index), i);
    WiderChange(m0, m1, START + index, START + index + o, START + index, START + index + SECTOR);
  }

  /** A sector of the image that holds nothing but 0xFF reads as erased on the flash, and a
      range that reads as erased never counts as equal. */
  ghost predicate HasBlankSector(fw: seq<byte>) {
    exists i: nat :: SectorStart(fw, i) && Blank(SectorAt(fw, i))
  }

  ghost predicate NoBlankBelow(fw: seq<byte>, index: nat) {
    forall i: nat :: SectorStart(fw, i) && i < index ==> !Blank(SectorAt(fw, i))
  }

  function SectorsBelow(index: nat): nat { (index + SECTOR - 1) / SECTOR }

  lemma NextSector(fw: seq<byte>, index: nat)
    requires SectorStart(fw, index) && NoBlankBelow(fw, index) && !Blank(SectorAt(fw, index))
    ensures var next := index + |SectorAt(fw, index)|;
            NoBlankBelow(fw, next) && SectorsBelow(next) == SectorsBelow(index) + 1 && index < next <= |fw|
  {
    var next := index + |SectorAt(fw, index)|;
    forall i: nat | SectorStart(fw, i) && i < next ensures !Blank(SectorAt(fw, i)) {
      assert i <= index;
    }
  }

  lemma NoBlankSector(fw: seq<byte>)
    requires NoBlankBelow(fw, |fw|)
    ensures !HasBlankSector(fw) && (Blank(fw) ==> fw == [])
  {
    if fw != [] {
      var s := SectorAt(fw, 0);
      assert SectorStart(fw, 0) && !Blank(s);
      assert s == fw[..|s|];
    }
  }

  // ---------------------------------------------------------------- what a step asks for

  function Writes(address: nat, sector: seq<byte>, n: nat): seq<Event> {
    seq(n, i requires 0 <= i < n =>
      Written(address + ChunkEnd(sector, i), ChunkAt(sector, i), Ones(|ChunkAt(sector, i)|)))
  }

  function RewritePlan(address: nat, sector: seq<byte>, erased: bool): seq<Event>
    requires sector != []
  {
    (if erased then [] else [Event.Erased(address, SECTOR)])
    + Writes(address, sector, ChunkCount(sector)) + [Asked(address, |sector|)]
  }

  // The sector at index is on the flash already, and the device can tell.
  predicate InPlace(fw: seq<byte>, index: nat, m: seq<byte>)
    requires index <= |fw| && START + index + |SectorAt(fw, index)| <= |m|
  {
    var s := SectorAt(fw, index);
    m[START + index..START + index + |s|] == s && !Blank(s)
  }

  /** The requests of a step, told from what the flash holds when it begins: a check, and unless
      the sector is in place an erase where the flash is not blank, the chunks, and a check. */
  function SectorPlan(fw: seq<byte>, index: nat, m: seq<byte>): seq<Event>
    requires index < |fw| && START + index + |SectorAt(fw, index)| <= |m|
  {
    var s, a := SectorAt(fw, index), START + index;
    [Asked(a, |s|)] + if InPlace(fw, index, m) then [] else RewritePlan(a, s, Blank(m[a..a + |s|]))
  }

  /** A step that ends as warn and fatal say has made the requests of plan in order: all of
      them unless one was lost or refused, and then up to that one. */
  ghost predicate Followed(plan: seq<Event>, log: seq<Event>, log': seq<Event>,
                           warn: Option<Warning>, fatal: Option<Failure>) {
    && log < log'
    && var made := log'[|log|..];
       var last := made[|made| - 1];
       && made <= plan
       && (warn in {None, Some(VerifyLost)} && fatal in {None, Some(SectorMismatch)} ==> made == plan)
       && (warn == Some(CheckLost) ==> |made| == 1)
       && (warn == Some(EraseLost) || fatal == Some(EraseRefused) ==> last.Erased?)
       && (warn == Some(WriteLost) || fatal == Some(WriteRefused) ==> last.Written?)
  }

  lemma LoggedIsWrites(log: seq<Event>, log': seq<Event>, address: nat, sector: seq<byte>, n: nat)
    requires ChunksLogged(log, log', address, sector, n)
    ensures log' == log + Writes(address, sector, n)
  {
    var w := log + Writes(address, sector, n);
    forall i | 0 <= i < |log'| ensures log'[i] == w[i] {
      if i >= |log| { assert log'[|log| + (i - |log|)] == w[i]; }
    }
  }

  lemma FewerWrites(address: nat, sector: seq<byte>, n: nat, all: nat)
    requires n <= all
    ensures Writes(address, sector, n) <= Writes(address, sector, all)
  {
  }

  // The erase ended the step.
  lemma EraseEnded(address: nat, sector: seq<byte>, log: seq<Event>, log': seq<Event>,
                   warn: Option<Warning>, fatal: Option<Failure>)
    requires sector != [] && log' == log + [Event.Erased(address, SECTOR)]
    requires (warn == Some(EraseLost) && fatal == None) || (warn == None && fatal == Some(EraseRefused))
    ensures Followed(RewritePlan(address, sector, false), log, log', warn, fatal)
  {
    hide Writes, ChunkCount;
    assert log'[|log|..] == [Event.Erased(address, SECTOR)];
    var plan := RewritePlan(address, sector, false);
    assert plan[..1] == [Event.Erased(address, SECTOR)];
  }

  // A write ended it.
  lemma WriteEnded(address: nat, sector: seq<byte>, erased: bool, n: nat, log: seq<Event>, log': seq<Event>,
                   warn: Option<Warning>, fatal: Option<Failure>)
    requires sector != [] && 0 < n <= ChunkCount(sector)
    requires log' == log + (if erased then [] else [Event.Erased(address, SECTOR)]) + Writes(address, sector, n)
    requires (warn == Some(WriteLost) && fatal == None) || (warn == None && fatal == Some(WriteRefused))
    ensures Followed(RewritePlan(address, sector, erased), log, log', warn, fatal)
  {
    FewerWrites(address, sector, n, ChunkCount(sector));
    var first := if erased then [] else [Event.Erased(address, SECTOR)];
    var w, all := Writes(address, sector, n), Writes(address, sector, ChunkCount(sector));
    assert w[n - 1].Written?;
    hide Writes, ChunkCount, Followed;
    WriteEndedIn(first, w, all, [Asked(address, |sector|)], log, log', warn, fatal);
  }

  lemma WriteEndedIn(first: seq<Event>, w: seq<Event>, all: seq<Event>, rest: seq<Event>,
                     log: seq<Event>, log': seq<Event>, warn: Option<Warning>, fatal: Option<Failure>)
    requires w != [] && w <= all && w[|w| - 1].Written? && log' == log + first + w
    requires (warn == Some(WriteLost) && fatal == None) || (warn == None && fatal == Some(WriteRefused))
    ensures Followed(first + all + rest, log, log', warn, fatal)
  {
    assert log'[|log|..] == first + w;
    assert all == w + all[|w|..];
    assert first + all + rest == (first + w) + (all[|w|..] + rest);
  }

  // The step went to its end.
  lemma PlanDone(address: nat, sector: seq<byte>, erased: bool, log: seq<Event>, log': seq<Event>,
                 warn: Option<Warning>, fatal: Option<Failure>)
    requires sector != []
    requires log' == log + (if erased then [] else [Event.Erased(address, SECTOR)])
                   + Writes(address, sector, ChunkCount(sector)) + [Asked(address, |sector|)]
    requires warn in {None, Some(VerifyLost)} && fatal in {None, Some(SectorMismatch)}
    ensures Followed(RewritePlan(address, sector, erased), log, log', warn, fatal)
  {
    hide Writes, ChunkCount;
    assert log'[|log|..] == RewritePlan(address, sector, erased);
  }

  // The first check comes before the rest.
  lemma CheckedFirst(first: Event, plan: seq<Event>, log: seq<Event>, log': seq<Event>, log'': seq<Event>,
                     warn: Option<Warning>, fatal: Option<Failure>)
    requires log' == log + [first] && Followed(plan, log', log'', warn, fatal) && warn != Some(CheckLost)
    ensures Followed([first] + plan, log, log'', warn, fatal)
  {
    var made := log''[|log'|..];
    assert log''[|log|..] == [first] + made;
    assert ([first] + plan)[..|made| + 1] == [first] + plan[..|made|];
  }

  lemma OnlyChecked(fw: seq<byte>, index: nat, m: seq<byte>, log: seq<Event>, log': seq<Event>,
                    warn: Option<Warning>)
    requires index < |fw| && START + index + |SectorAt(fw, index)| <= |m|
    requires log' == log + [Asked(START + index, |SectorAt(fw, index)|)]
    requires warn == Some(CheckLost) || (warn == None && InPlace(fw, index, m))
    ensures Followed(SectorPlan(fw, index, m), log, log', warn, None)
  {
    hide RewritePlan;
    assert log'[|log|..] == [Asked(START + index, |SectorAt(fw, index)|)];
  }

  /** The requests of a step over a sector that is in place are one check. An erase is asked for
      only where the flash holds neither the sector nor 0xFF alone. */
  lemma PlanIsSparing(fw: seq<byte>, index: nat, m: seq<byte>)
    requires index < |fw| && START + index + |SectorAt(fw, index)| <= |m|
    ensures var s, a := SectorAt(fw, index), 0x80000 + index;
            var now := m[a..a + |s|];
            && SectorPlan(fw, index, m)
               == [Asked(a, |s|)] + (if now == s && !Blank(s) then [] else RewritePlan(a, s, Blank(now)))
            && forall e :: e in SectorPlan(fw, index, m) && e.Erased? ==>
                 e == Event.Erased(a, SECTOR) && now != s && !Blank(now)
  {
    hide Blank, RewritePlan;
    var s, a := SectorAt(fw, index), START + index;
    SparingPlan(a, s, m[a..a + |s|]);
  }

  lemma SparingPlan(address: nat, sector: seq<byte>, now: seq<byte>)
    requires sector != []
    ensures var plan := [Asked(address, |sector|)]
                        + if now == sector && !Blank(sector) then [] else RewritePlan(address, sector, Blank(now));
            forall e :: e in plan && e.Erased? ==>
              e == Event.Erased(address, SECTOR) && now != sector && !Blank(now)
  {
    hide Blank, RewritePlan;
    OneErase(address, sector, Blank(now));
  }

  lemma OneErase(address: nat, sector: seq<byte>, erased: bool)
    requires sector != []
    ensures forall e :: e in RewritePlan(address, sector, erased) && e.Erased? ==>
              e == Event.Erased(address, SECTOR) && !erased
  {
    var w := Writes(address, sector, ChunkCount(sector));
    assert forall e :: e in w ==> e.Written?;
    hide Writes, ChunkCount;
  }

  /** After the check any other sector is erased where the flash is not blank, written in pieces
      of 1024 bytes from its start to its end, and checked again. */
  lemma RewriteIsComplete(address: nat, sector: seq<byte>, erased: bool, i: nat)
    requires i * 1024 < |sector|
    ensures var plan, first := RewritePlan(address, sector, erased), if erased then 0 else 1;
            && |plan| == first + (|sector| + 1023) / 1024 + 1
            && plan[|plan| - 1] == Asked(address, |sector|)
            && (first == 1 ==> plan[0] == Event.Erased(address, 4096))
            && first + i < |plan| && IsPiece(plan[first + i], address, sector, i)
  {
    var n := ChunkCount(sector);
    var w := Writes(address, sector, n);
    assert n == (|sector| + 1023) / 1024 && i < n;
    assert IsPiece(w[i], address, sector, i);
    hide ChunkCount, Writes, IsPiece;
    var erase := if erased then [] else [Event.Erased(address, SECTOR)];
    var plan := RewritePlan(address, sector, erased);
    assert plan == erase + w + [Asked(address, |sector|)];
    assert plan[|erase| + i] == w[i];
  }

  // The write of the i-th piece of 1024 bytes, or what is left of them.
  predicate IsPiece(e: Event, address: nat, sector: seq<byte>, i: nat)
    requires i * 1024 < |sector|
  {
    && e.Written? && e.address == address + i * 1024
    && e.data == sector[i * 1024..if i * 1024 + 1024 <= |sector| then i * 1024 + 1024 else |sector|]
  }

  // After the last sector: a check of the whole, and the boot unless it failed.
  function FinalRequests(fw: seq<byte>, fatal: Option<Failure>): seq<Event> {
    [Asked(START, |fw|)] + if fatal in {None, Some(BootFailed)} then [Booted(START, fw)] else []
  }

  // Only checks and the boot.
  ghost predicate OnlyAsks(log: seq<Event>, log': seq<Event>) {
    log <= log' && forall i :: |log| <= i < |log'| ==> log'[i].Asked? || log'[i].Booted?
  }

  // The whole image is on the flash, and the device can tell of each sector.
  ghost predicate AllInPlace(fw: seq<byte>, m: seq<byte>) {
    START + |fw| <= |m| && m[START..START + |fw|] == fw && !HasBlankSector(fw)
  }

  lemma SectorIsInPlace(fw: seq<byte>, index: nat, m: seq<byte>)
    requires AllInPlace(fw, m) && SectorStart(fw, index)
    ensures START + index + |SectorAt(fw, index)| <= |m| && InPlace(fw, index, m)
  {
    var s := SectorAt(fw, index);
    SliceOfSlice(m, START, START + |fw|, index, index + |s|);
    assert s == fw[index..index + |s|];
  }

  /** The plans of the first n sectors, one after the other, over the flash as it was. */
  function FirstPlans(fw: seq<byte>, m: seq<byte>, n: nat): seq<Event>
    requires n <= SectorCount(fw) && START + |fw| <= |m|
  {
    if n == 0 then [] else FirstPlans(fw, m, n - 1) + SectorPlan(fw, (n - 1) * SECTOR, m)
  }

  function PlansBelow(fw: seq<byte>, m: seq<byte>, index: nat): seq<Event>
    requires index <= |fw| && START + |fw| <= |m|
  {
    FirstPlans(fw, m, SectorsBelow(index))
  }

  lemma OnePlanMore(fw: seq<byte>, m: seq<byte>, index: nat)
    requires SectorStart(fw, index) && START + |fw| <= |m|
    ensures index + |SectorAt(fw, index)| <= |fw|
    ensures PlansBelow(fw, m, index + |SectorAt(fw, index)|) == PlansBelow(fw, m, index) + SectorPlan(fw, index, m)
  {
    hide SectorPlan, FirstPlans;
    var n := SectorsBelow(index);
    assert SectorsBelow(index + |SectorAt(fw, index)|) == n + 1 && n * SECTOR == index;
    FirstPlansSnoc(fw, m, n);
  }

  lemma FirstPlansSnoc(fw: seq<byte>, m: seq<byte>, n: nat)
    requires n < SectorCount(fw) && START + |fw| <= |m|
    ensures FirstPlans(fw, m, n + 1) == FirstPlans(fw, m, n) + SectorPlan(fw, n * SECTOR, m)
  {
  }

  lemma SamePlan(fw: seq<byte>, index: nat, m: seq<byte>, m': seq<byte>)
    requires index < |fw| && START + |fw| <= |m| && |m| == |m'| && m[START + index..] == m'[START + index..]
    ensures SectorPlan(fw, index, m) == SectorPlan(fw, index, m')
  {
    hide RewritePlan;
    var a, n := START + index, |SectorAt(fw, index)|;
    SliceOfSlice(m, a, |m|, 0, n);
    SliceOfSlice(m', a, |m|, 0, n);
    assert m[a..] == m[a..|m|] && m'[a..] == m'[a..|m|];
  }

  /** What a step of a procedure that goes on asks for, and that it leaves a sector alone that is
      in place. */
  ghost predicate Traced(fw: seq<byte>, index: nat, m0: seq<byte>, m1: seq<byte>, log0: seq<Event>, log1: seq<Event>,
                         warn: Option<Warning>, fatal: Option<Failure>) {
    if index < |fw| then
      && START + index + |SectorAt(fw, index)| <= |m0|
      && Followed(SectorPlan(fw, index, m0), log0, log1, warn, fatal)
      && (InPlace(fw, index, m0) ==> m1 == m0 && warn in {None, Some(CheckLost)} && fatal == None)
    else m1 == m0 && log1 == log0 + FinalRequests(fw, fatal)
  }

  /** What a run over a flash that held m0 has asked for when it stands at index: no erase and no
      write at all if the image was in place, and as long as nothing was lost exactly the plans
      of the sectors so far. */
  ghost predicate TracedSoFar(fw: seq<byte>, index: nat, m0: seq<byte>, m: seq<byte>, log0: seq<Event>,
                              log: seq<Event>, lossless: bool) {
    && START + |fw| <= |m0| == |m| && index <= |fw|
    && (AllInPlace(fw, m0) ==> m == m0 && OnlyAsks(log0, log))
    && (lossless ==> log == log0 + PlansBelow(fw, m0, index)
                     && (index < |fw| ==> m[START + index..] == m0[START + index..]))
  }

  lemma NothingTraced(fw: seq<byte>, m: seq<byte>, log: seq<Event>)
    requires START + |fw| <= |m|
    ensures TracedSoFar(fw, 0, m, m, log, log, true)
  {
  }

  lemma StaysInPlace(fw: seq<byte>, index: nat, m0: seq<byte>, m1: seq<byte>, m2: seq<byte>, log0: seq<Event>,
                     log1: seq<Event>, log2: seq<Event>, lossless: bool, warn: Option<Warning>, fatal: Option<Failure>)
    requires TracedSoFar(fw, index, m0, m1, log0, log1, lossless) && AllInPlace(fw, m0)
    requires Traced(fw, index, m1, m2, log1, log2, warn, fatal) && (index < |fw| ==> SectorStart(fw, index))
    ensures m2 == m0 && OnlyAsks(log0, log2)
    ensures index < |fw| ==> fatal == None
  {
    hide SectorPlan, InPlace, PlansBelow;
    if index < |fw| {
      SectorIsInPlace(fw, index, m0);
      PlanIsOneCheck(fw, index, m0);
      var made := log2[|log1|..];
      assert log2 == log1 + made && |made| == 1;
    }
  }

  lemma PlanIsOneCheck(fw: seq<byte>, index: nat, m: seq<byte>)
    requires index < |fw| && START + index + |SectorAt(fw, index)| <= |m| && InPlace(fw, index, m)
    ensures SectorPlan(fw, index, m) == [Asked(START + index, |SectorAt(fw, index)|)]
  {
  }

  lemma PlanIsFollowed(fw: seq<byte>, index: nat, m0: seq<byte>, m1: seq<byte>, m2: seq<byte>, log0: seq<Event>,
                       log1: seq<Event>, log2: seq<Event>)
    requires TracedSoFar(fw, index, m0, m1, log0, log1, true) && SectorStart(fw, index)
    requires Traced(fw, index, m1, m2, log1, log2, None, None)
    requires SameOutside(m1, m2, START + index, START + index + SECTOR)
    ensures var next := index + |SectorAt(fw, index)|;
            && next <= |fw| && log2 == log0 + PlansBelow(fw, m0, next)
            && (next < |fw| ==> m2[START + next..] == m0[START + next..])
  {
    hide SectorPlan, InPlace, AllInPlace;
    SamePlan(fw, index, m0, m1);
    OnePlanMore(fw, m0, index);
    var next := index + |SectorAt(fw, index)|;
    hide PlansBelow;
    assert log2 == log1 + log2[|log1|..];
    if next < |fw| {
      assert m0[START + next..] == m0[START + index..][SECTOR..];
      assert m1[START + next..] == m1[START + index..][SECTOR..];
    }
  }

  lemma TraceGoesOn(fw: seq<byte>, index: nat, index': nat, m0: seq<byte>, m1: seq<byte>, m2: seq<byte>,
                    log0: seq<Event>, log1: seq<Event>, log2: seq<Event>, before: bool, after: bool,
                    warn: Option<Warning>)
    requires TracedSoFar(fw, index, m0, m1, log0, log1, before) && SectorStart(fw, index)
    requires Traced(fw, index, m1, m2, log1, log2, warn, None)
    requires SameOutside(m1, m2, START + index, START + index + SECTOR)
    requires after ==> before && warn == None
    requires index' == if warn == None then index + |SectorAt(fw, index)| else index
    ensures TracedSoFar(fw, index', m0, m2, log0, log2, after)
  {
    if AllInPlace(fw, m0) {
      StaysInPlace(fw, index, m0, m1, m2, log0, log1, log2, before, warn, None);
    }
    if after {
      PlanIsFollowed(fw, index, m0, m1, m2, log0, log1, log2);
    }
    hide AllInPlace, Traced, PlansBelow;
  }

  /** How the trace of a run ends. Over a flash that holds the image already, unless it has a
      blank sector, a run erases and writes nothing. A run that completes without losing a reply
      has asked for exactly the plans of all sectors, the check of the whole and the boot. */
  ghost predicate Trace(fw: seq<byte>, m0: seq<byte>, m: seq<byte>, log0: seq<Event>, log: seq<Event>,
                        lossless: bool, complete: bool) {
    && START + |fw| <= |m0|
    && (AllInPlace(fw, m0) ==> m == m0 && OnlyAsks(log0, log))
    && (lossless && complete ==>
          log == log0 + PlansBelow(fw, m0, |fw|) + [Asked(START, |fw|), Booted(START, fw)])
  }

  lemma TraceEnds(fw: seq<byte>, index: nat, m0: seq<byte>, m1: seq<byte>, m2: seq<byte>,
                  log0: seq<Event>, log1: seq<Event>, log2: seq<Event>, before: bool, after: bool,
                  complete: bool, warn: Option<Warning>, fatal: Option<Failure>)
    requires TracedSoFar(fw, index, m0, m1, log0, log1, before) && (index < |fw| ==> SectorStart(fw, index))
    requires Traced(fw, index, m1, m2, log1, log2, warn, fatal)
    requires (after ==> before) && (complete ==> index == |fw| && fatal == None)
    ensures Trace(fw, m0, m2, log0, log2, after, complete)
  {
    if AllInPlace(fw, m0) {
      StaysInPlace(fw, index, m0, m1, m2, log0, log1, log2, before, warn, fatal);
    }
    hide AllInPlace, PlansBelow;
    if complete {
      assert FinalRequests(fw, fatal) == [Asked(START, |fw|), Booted(START, fw)];
    }
  }

  // ---------------------------------------------------------------- the procedure

  class FirmwareUploadProcedure {
    const flash: FlashDevice
    var firmware: seq<byte>
    var firmwareIndex: U32
    var memoryAddress: U32
    var errFatal: Option<Failure>
    var errWarn: Option<Warning>
    var complete: bool

    constructor (flash: FlashDevice)
      ensures this.flash == flash
    {
      this.flash := flash;
      firmware, firmwareIndex, memoryAddress, errFatal, errWarn, complete := [], 0, 0, None, None, false;
    }

    /** The flash has room for the whole sectors of the image. */
    ghost predicate Room(fw: seq<byte>)
      reads flash
    {
      START + SectorCount(fw) * SECTOR <= |flash.mem| < 0x1_0000_0000
    }

    /** The invariant between steps: the addresses go together, and the part of the image that
        is behind the index is on the flash. */
    ghost predicate Valid()
      reads this, flash
    {
      && Room(firmware)
      && firmwareIndex <= |firmware| && memoryAddress == START + firmwareIndex
      && (firmwareIndex == |firmware| || SectorStart(firmware, firmwareIndex))
      && Held(firmware, firmwareIndex, flash.mem)
    }

    method InitFromBytes(firmware: seq<byte>)
      requires Room(firmware)
      modifies this
      ensures Valid() && this.firmware == firmware && firmwareIndex == 0
      ensures errFatal == None && errWarn == None && !complete
    {
      this.firmware, firmwareIndex, memoryAddress := firmware, 0, START;
      errFatal, errWarn, complete := None, None, false;
    }

    method CheckMemoryMd5(md5: Digest, address: nat, length: nat) returns (equal: bool, erased: bool, lost: bool)
      requires address + length <= |flash.mem|
      modifies flash`clock, flash`lossesLeft, flash`log
      ensures flash.log == old(flash.log) + [Asked(address, length)]
      ensures flash.lossesLeft == old(flash.lossesLeft) - if lost then 1 else 0
      ensures var s := flash.mem[address..address + length];
              !lost ==> erased == flash.ReadsErased(s) && equal == (!erased && md5 == Md5(s))
    {
      var reply := flash.GetMd5(address, length);
      if reply.None? {
        return false, false, true;
      }
      if reply.value.erased {
        return false, true, false;
      }
      equal, erased, lost := reply.value.md5 == md5, reply.value.erased, false;
    }

    method CheckMd5(data: seq<byte>, address: nat, length: nat) returns (failure: Option<Failure>)
      requires address + length <= |flash.mem|
      modifies flash`clock, flash`lossesLeft, flash`log
      ensures flash.log == old(flash.log) + [Asked(address, length)]
      ensures flash.lossesLeft == old(flash.lossesLeft) - if failure == Some(FinalCheckLost) then 1 else 0
      ensures failure in {None, Some(FinalCheckLost), Some(FinalMismatch)}
      ensures var s := flash.mem[address..address + length];
              failure != Some(FinalCheckLost) ==> (failure == None <==> !flash.ReadsErased(s) && data == s)
    {
      var equal, erased, lost := CheckMemoryMd5(Md5(data), address, length);
      failure := if lost then Some(FinalCheckLost) else if !equal then Some(FinalMismatch) else None;
    }

    // The body of the chunk loop.
    method WriteChunk(sector: seq<byte>, i: nat, sectorOffset: U32,
                      ghost exact: bool, ghost m0: seq<byte>, ghost log0: seq<Event>) returns (failed: Option<bool>)
      requires firmwareIndex <= |firmware| && SectorStart(firmware, firmwareIndex)
      requires sector == SectorAt(firmware, firmwareIndex)
      requires memoryAddress == START + firmwareIndex && START + firmwareIndex + |sector| <= |m0| && |m0| == |flash.mem|
      requires sectorOffset == ChunkEnd(sector, i) && i < ChunkCount(sector)
      requires Blank(m0[START + firmwareIndex..START + firmwareIndex + |sector|])
      requires ChunksSent(firmware, firmwareIndex, i, exact, m0, flash.mem, log0, flash.log)
      modifies flash
      ensures ChunksSent(firmware, firmwareIndex, i + 1, exact && flash.Obeys() && failed.Some?,
                         m0, flash.mem, log0, flash.log)
      ensures flash.lossesLeft == old(flash.lossesLeft) - if failed == None then 1 else 0
      ensures flash.Obeys() ==> failed != Some(true)
      ensures |flash.mem| == |m0|
    {
      hide ChunksSent, ChunkAt, ChunkEnd, Blank, SectorAt, Programmed, FlashDevice.Obeys, ChunkCount;
      var chunk := ChunkAt(sector, i);
      ChunkLength(sector, i);
      ghost var m1, log1 := flash.mem, flash.log;
      failed := flash.Write(memoryAddress + sectorOffset, chunk);
      ChunkSent(firmware, firmwareIndex, i, exact, flash.Obeys() && failed.Some?,
                m0, m1, flash.mem, log0, log1, flash.log);
    }

    /** The chunk loop: onto an erased range, each chunk once and in order. */
    method WriteChunks(sector: seq<byte>)
      returns (warn: Option<Warning>, fatal: Option<Failure>, ghost sent: nat, ghost exact: bool)
      requires Valid() && SectorStart(firmware, firmwareIndex) && sector == SectorAt(firmware, firmwareIndex)
      requires Blank(flash.mem[memoryAddress..memoryAddress + |sector|])
      modifies flash
      ensures ChunksSent(firmware, firmwareIndex, sent, exact, old(flash.mem), flash.mem, old(flash.log), flash.log)
      ensures sent <= ChunkCount(sector) && (warn == None && fatal == None ==> sent == ChunkCount(sector))
      ensures warn in {None, Some(WriteLost)} && (warn != None || fatal != None ==> sent > 0)
      ensures flash.Obeys() && warn == None ==> exact
      ensures flash.lossesLeft == old(flash.lossesLeft) - if warn == None then 0 else 1
      ensures fatal in {None, Some(WriteRefused)} && (warn == None || fatal == None)
      ensures flash.Obeys() ==> fatal == None
    {
      ghost var m0, log0 := flash.mem, flash.log;
      warn, fatal, exact := None, None, true;
      SectorsFit(firmware, firmwareIndex);
      hide FirmwareUploadProcedure.Valid, FirmwareUploadProcedure.Room, FlashDevice.Obeys, SectorCount;
      hide ChunksSent, ChunkAt, ChunkEnd, Blank, SameOutside, SectorAt, Programmed, ChunkCount;
      ChunkLength(sector, 0);
      NoChunkSent(firmware, firmwareIndex, m0, log0);
      var sectorOffset: U32 := 0;
      var sectorChunks := ChunkCount(sector);
      var i := 0;
      while i < sectorChunks
        invariant 0 <= i <= sectorChunks && sectorOffset == ChunkEnd(sector, i) && |flash.mem| == |m0|
        invariant ChunksSent(firmware, firmwareIndex, i, exact, m0, flash.mem, log0, flash.log)
        invariant flash.lossesLeft == old(flash.lossesLeft)
        invariant flash.Obeys() ==> exact
      {
        ChunkLength(sector, i);
        var failed := WriteChunk(sector, i, sectorOffset, exact, m0, log0);
        exact := exact && flash.Obeys() && failed.Some?;
        if failed == None {
          return Some(WriteLost), None, i + 1, exact;
        }
        if failed.value {
          return None, Some(WriteRefused), i + 1, exact;
        }
        sectorOffset := sectorOffset + |ChunkAt(sector, i)|;
        i := i + 1;
      }
      sent := i;
    }

    // The erase of Step, unless the range was found erased.
    method MakeErased(erased: bool, ghost length: nat) returns (warn: Option<Warning>, fatal: Option<Failure>)
      requires Valid() && SectorStart(firmware, firmwareIndex) && length == |SectorAt(firmware, firmwareIndex)|
      requires memoryAddress + length <= |flash.mem|
      requires erased ==> Blank(flash.mem[memoryAddress..memoryAddress + length])
      modifies flash
      ensures Valid()
      ensures Effect(firmware, memoryAddress, old(flash.mem), flash.mem, old(flash.log), flash.log)
      ensures flash.lossesLeft == old(flash.lossesLeft) - if warn == None then 0 else 1
      ensures warn == None || fatal == None
      ensures flash.Obeys() ==> fatal == None
      ensures warn == None && fatal == None ==> Blank(flash.mem[memoryAddress..memoryAddress + length])
      ensures warn in {None, Some(EraseLost)} && fatal in {None, Some(EraseRefused)}
      ensures erased ==> warn == None && fatal == None
      ensures flash.log == old(flash.log) + if erased then [] else [Event.Erased(memoryAddress, SECTOR)]
    {
      SectorsFit(firmware, firmwareIndex);
      if erased {
        return None, None;
      }
      ghost var m0, log0 := flash.mem, flash.log;
      var reply := flash.Erase(memoryAddress, SECTOR);
      StillHeld(firmware, firmwareIndex, m0, flash.mem, log0, flash.log);
      if reply == None {
        return Some(EraseLost), None;
      }
      if !reply.value {
        return None, Some(EraseRefused);
      }
      OnesStartBlank(flash.mem, memoryAddress, SECTOR, length);
      return None, None;
    }

    // The sector on the flash against the sector of the image.
    method CheckSector(sector: seq<byte>) returns (equal: bool, erased: bool, lost: bool)
      requires Valid() && SectorStart(firmware, firmwareIndex) && sector == SectorAt(firmware, firmwareIndex)
      requires memoryAddress + |sector| <= |flash.mem|
      modifies flash
      ensures Valid() && flash.mem == old(flash.mem)
      ensures Effect(firmware, memoryAddress, old(flash.mem), flash.mem, old(flash.log), flash.log)
      ensures flash.lossesLeft == old(flash.lossesLeft) - if lost then 1 else 0
      ensures var s := flash.mem[memoryAddress..memoryAddress + |sector|];
              !lost ==> (erased <==> Blank(s)) && (equal <==> s == sector && !Blank(sector))
      ensures flash.log == old(flash.log) + [Asked(memoryAddress, |sector|)]
    {
      SectorsFit(firmware, firmwareIndex);
      equal, erased, lost := CheckMemoryMd5(Md5(sector), memoryAddress, |sector|);
      AskingHasNoEffect(firmware, memoryAddress, flash.mem, old(flash.log), memoryAddress, |sector|);
    }

    // The part of Step from the erase on: make the sector of the flash the one of the image.
    method RewriteSector(sector: seq<byte>, erased: bool) returns (warn: Option<Warning>, fatal: Option<Failure>)
      requires Valid() && SectorStart(firmware, firmwareIndex) && sector == SectorAt(firmware, firmwareIndex)
      requires memoryAddress + |sector| <= |flash.mem|
      requires erased ==> Blank(flash.mem[memoryAddress..memoryAddress + |sector|])
      modifies flash
      ensures Valid() && |flash.mem| == old(|flash.mem|)
      ensures Effect(firmware, memoryAddress, old(flash.mem), flash.mem, old(flash.log), flash.log)
      ensures flash.lossesLeft == old(flash.lossesLeft) - if warn == None then 0 else 1
      ensures warn == None || fatal == None
      ensures flash.Obeys() ==> fatal == if warn == None && Blank(sector) then Some(SectorMismatch) else None
      ensures warn == None && fatal == None ==>
                flash.mem[memoryAddress..memoryAddress + |sector|] == sector && !Blank(sector)
      ensures sector != [] && warn != Some(CheckLost)
      ensures Followed(RewritePlan(memoryAddress, sector, erased), old(flash.log), flash.log, warn, fatal)
    {
      hide Held, Effect, Blank, ChunksSent, FlashDevice.Obeys, SectorAt, ChunkCount, Followed, RewritePlan, Writes,
          SameOutside, SectorCount;
      ghost var m0, log0 := flash.mem, flash.log;
      SectorHasRoom(this);
      warn, fatal := MakeErased(erased, |sector|);
      ghost var m1, log1 := flash.mem, flash.log;
      StillHeld(firmware, firmwareIndex, m0, m1, log0, log1);
      if warn != None || fatal != None {
        EraseEnded(memoryAddress, sector, log0, log1, warn, fatal);
        return;
      }
      ghost var sent, exact;
      warn, fatal, sent, exact := WriteChunks(sector);
      ghost var m2, log2 := flash.mem, flash.log;
      ChunksStayInside(firmware, firmwareIndex, sent, exact, m1, m2, log1, log2);
      StillHeld(firmware, firmwareIndex, m1, m2, log1, log2);
      EffectsFollow(firmware, memoryAddress, m0, m1, m2, log0, log1, log2);
      SentIsWrites(firmware, firmwareIndex, sent, exact, m1, m2, log1, log2);
      if warn != None || fatal != None {
        WriteEnded(memoryAddress, sector, erased, sent, log0, log2, warn, fatal);
        return;
      }
      warn, fatal := VerifySector(sector, exact, m1, log1);
      EffectsFollow(firmware, memoryAddress, m0, m2, m2, log0, log2, flash.log);
      PlanDone(memoryAddress, sector, erased, log0, flash.log, warn, fatal);
    }

    // The last check of Step, after the chunks went out.
    method VerifySector(sector: seq<byte>, ghost exact: bool, ghost m1: seq<byte>, ghost log1: seq<Event>)
      returns (warn: Option<Warning>, fatal: Option<Failure>)
      requires Valid() && SectorStart(firmware, firmwareIndex) && sector == SectorAt(firmware, firmwareIndex)
      requires sector != [] && memoryAddress + |sector| <= |flash.mem|
      requires ChunksSent(firmware, firmwareIndex, ChunkCount(sector), exact, m1, flash.mem, log1, flash.log)
      modifies flash
      ensures Valid() && flash.mem == old(flash.mem)
      ensures Effect(firmware, memoryAddress, flash.mem, flash.mem, old(flash.log), flash.log)
      ensures flash.lossesLeft == old(flash.lossesLeft) - if warn == None then 0 else 1
      ensures warn == None || fatal == None
      ensures exact ==> fatal == if warn == None && Blank(sector) then Some(SectorMismatch) else None
      ensures warn in {None, Some(VerifyLost)} && fatal in {None, Some(SectorMismatch)}
      ensures flash.log == old(flash.log) + [Asked(memoryAddress, |sector|)]
      ensures warn == None && fatal == None ==>
                flash.mem[memoryAddress..memoryAddress + |sector|] == sector && !Blank(sector)
    {
      AllChunksSent(firmware, firmwareIndex, exact, m1, flash.mem, log1, flash.log);
      hide Held, Effect, Blank, ChunksSent, SectorAt, ChunkCount;
      var equal, erased, lost := CheckSector(sector);
      warn := if lost then Some(VerifyLost) else None;
      fatal := if !lost && !equal then Some(SectorMismatch) else None;
    }

    // The sector is done: on to the next.
    method Advance(sector: seq<byte>)
      requires Valid() && SectorStart(firmware, firmwareIndex) && sector == SectorAt(firmware, firmwareIndex)
      requires memoryAddress + |sector| <= |flash.mem|
      requires flash.mem[memoryAddress..memoryAddress + |sector|] == sector
      modifies this`firmwareIndex, this`memoryAddress
      ensures Valid() && firmwareIndex == old(firmwareIndex) + |sector|
    {
      hide Held, SectorAt, SectorStart, SectorCount;
      MoreHeld(firmware, firmwareIndex, flash.mem);
      firmwareIndex, memoryAddress := firmwareIndex + |sector|, memoryAddress + |sector|;
    }

    /** Step while there is a sector to do. */
    method UploadSector() returns (warn: Option<Warning>, fatal: Option<Failure>)
      requires Valid() && SectorStart(firmware, firmwareIndex)
      modifies this`firmwareIndex, this`memoryAddress, flash
      ensures Valid()
      ensures Effect(firmware, old(memoryAddress), old(flash.mem), flash.mem, old(flash.log), flash.log)
      ensures flash.lossesLeft == old(flash.lossesLeft) - if warn == None then 0 else 1
      ensures warn == None || fatal == None
      ensures var s := SectorAt(firmware, old(firmwareIndex));
              if warn == None && fatal == None then firmwareIndex == old(firmwareIndex) + |s| && !Blank(s)
              else firmwareIndex == old(firmwareIndex)
      ensures var s := SectorAt(firmware, old(firmwareIndex));
              flash.Obeys() ==> fatal == if warn == None && Blank(s) then Some(SectorMismatch) else None
      ensures START + old(firmwareIndex) + |SectorAt(firmware, old(firmwareIndex))| <= |old(flash.mem)|
      ensures Followed(SectorPlan(firmware, old(firmwareIndex), old(flash.mem)), old(flash.log), flash.log, warn, fatal)
      ensures InPlace(firmware, old(firmwareIndex), old(flash.mem)) ==>
                && flash.mem == old(flash.mem) && warn in {None, Some(CheckLost)} && fatal == None
                && flash.log == old(flash.log)
                                + [Asked(old(memoryAddress), |SectorAt(firmware, old(firmwareIndex))|)]
    {
      hide FirmwareUploadProcedure.Valid, FirmwareUploadProcedure.Room, Held, Effect, Blank, FlashDevice.Obeys,
          SectorAt, SectorStart, Followed, RewritePlan;
      ghost var m0, log0 := flash.mem, flash.log;
      SectorHasRoom(this);
      var sector := SectorAt(firmware, firmwareIndex);
      var equal, erased, lost := CheckSector(sector);
      if lost {
        OnlyChecked(firmware, firmwareIndex, m0, log0, flash.log, Some(CheckLost));
        return Some(CheckLost), None;
      }
      if !equal {
        ghost var m1, log1 := flash.mem, flash.log;
        warn, fatal := RewriteSector(sector, erased);
        CheckedFirst(Asked(memoryAddress, |sector|), RewritePlan(memoryAddress, sector, erased),
                     log0, log1, flash.log, warn, fatal);
        EffectsFollow(firmware, memoryAddress, m0, m1, flash.mem, log0, log1, flash.log);
        if warn != None || fatal != None {
          return;
        }
      } else {
        OnlyChecked(firmware, firmwareIndex, m0, log0, flash.log, None);
        warn, fatal := None, None;
      }
      Advance(sector);
    }

    /** Step once the index has passed the last sector. */
    method Finish() returns (fatal: Option<Failure>)
      requires Valid() && firmwareIndex == |firmware|
      modifies flash`clock, flash`lossesLeft, flash`log
      ensures Valid() && AllowedSince(firmware, old(flash.log), flash.log)
      ensures flash.lossesLeft
        == old(flash.lossesLeft) - if fatal in {Some(FinalCheckLost), Some(BootFailed)} then 1 else 0
      ensures fatal in {None, Some(FinalCheckLost), Some(FinalMismatch), Some(BootFailed)}
      ensures fatal != Some(FinalCheckLost) ==> (fatal == Some(FinalMismatch) <==> flash.ReadsErased(firmware))
      ensures fatal == None ==> flash.log != [] && flash.log[|flash.log| - 1] == Booted(START, firmware)
      ensures flash.log == old(flash.log) + FinalRequests(firmware, fatal)
      ensures var asked := flash.log[|old(flash.log)|..];
              && Asked(START, |firmware|) in asked && |asked| <= 2
              && (Booted(START, firmware) in asked <==> fatal == None || fatal == Some(BootFailed))
    {
      assert firmware[..|firmware|] == firmware;
      fatal := CheckMd5(firmware, START, |firmware|);
      if fatal != None {
        return;
      }
      var ok := flash.EBoot(START, |firmware|);
      if !ok {
        fatal := Some(BootFailed);
      }
    }

    /** Step. The results are those the source returns: complete, a warning, a fatal error. */
    method Step() returns (done: bool, warn: Option<Warning>, fatal: Option<Failure>)
      requires Valid()
      modifies this`firmwareIndex, this`memoryAddress, this`errFatal, this`errWarn, flash
      ensures Valid()
      ensures AllowedSince(firmware, old(flash.log), flash.log)
      ensures old(errFatal) != None || old(complete) ==>
                && done == complete && warn == None && fatal == old(errFatal)
                && flash.log == old(flash.log) && flash.mem == old(flash.mem)
      ensures old(errFatal) == None && !old(complete) ==> StepResult(
                firmware, old(firmwareIndex), firmwareIndex, old(flash.lossesLeft), flash.lossesLeft, flash.log,
                flash.Obeys(), flash.ReadsErased(firmware), done, warn, fatal)
      ensures old(errFatal) == None && !old(complete) && old(firmwareIndex) < |firmware| ==>
                Effect(firmware, old(memoryAddress), old(flash.mem), flash.mem, old(flash.log), flash.log)
      ensures old(errFatal) == None && !old(complete) ==> Traced(
                firmware, old(firmwareIndex), old(flash.mem), flash.mem, old(flash.log), flash.log, warn, fatal)
    {
      if errFatal != None || complete {
        return complete, None, errFatal;
      }
      hide FirmwareUploadProcedure.Room, Held, SameOutside, Allowed, Blank, SectorAt, FlashDevice.Obeys,
          FlashDevice.ReadsErased;
      if firmwareIndex >= |firmware| {
        fatal := Finish();
        if fatal != None {
          errFatal := fatal;
        }
        return fatal == None, None, fatal;
      }
      warn, fatal := UploadSector();
      done := false;
      if warn != None {
        errWarn := warn;
      }
      if fatal != None {
        errFatal := fatal;
      }
    }

    /** Run, as a whole. At most lossesLeft replies are lost; steps counts the calls of Step. */
    method Run(firmware: seq<byte>) returns (ghost steps: nat)
      requires Room(firmware)
      modifies this, flash
      ensures Valid() && this.firmware == firmware
      ensures AllowedSince(firmware, old(flash.log), flash.log)
      ensures complete ==> && flash.mem[START..START + |firmware|] == firmware
                           && flash.log != [] && flash.log[|flash.log| - 1] == Booted(START, firmware)
      ensures steps <= SectorCount(firmware) + 1 + old(flash.lossesLeft)
      ensures Outcome(firmware, flash.Obeys(), flash.emptyIsErased, complete, errFatal)
      ensures Trace(firmware, old(flash.mem), flash.mem, old(flash.log), flash.log,
                    flash.lossesLeft == old(flash.lossesLeft), complete)
    {
      InitFromBytes(firmware);
      RoomForAll(this);
      NothingTraced(firmware, flash.mem, flash.log);
      hide FirmwareUploadProcedure.Room, FirmwareUploadProcedure.Valid, Outcome, NoBlankBelow, SectorsBelow,
          SectorCount, AllowedSince, TracedSoFar, Trace;
      NothingDone(firmware, flash.log);
      steps := 0;
      ghost var m0, log0, k := flash.mem, flash.log, flash.lossesLeft;
      while true
        invariant Valid() && this.firmware == firmware && errFatal == None && !complete
        invariant RunSoFar(m0, log0, k, steps)
        decreases flash.lossesLeft + |firmware| - firmwareIndex
      {
        RunOnce(m0, log0, k, steps);
        steps := steps + 1;
        if errFatal != None || complete {
          return;
        }
      }
    }

    // What Run keeps between two steps.
    ghost predicate RunSoFar(m0: seq<byte>, log0: seq<Event>, k: nat, steps: nat)
      reads this, flash
    {
      && AllowedSince(firmware, log0, flash.log) && NoBlankBelow(firmware, firmwareIndex)
      && flash.lossesLeft <= k && steps == SectorsBelow(firmwareIndex) + (k - flash.lossesLeft)
      && TracedSoFar(firmware, firmwareIndex, m0, flash.mem, log0, flash.log, flash.lossesLeft == k)
    }

    // The body of the loop in Run.
    method RunOnce(ghost m0: seq<byte>, ghost log0: seq<Event>, ghost k: nat, ghost steps: nat)
      requires Valid() && errFatal == None && !complete && RunSoFar(m0, log0, k, steps)
      modifies this, flash
      ensures Valid() && firmware == old(firmware)
      ensures AllowedSince(firmware, log0, flash.log)
      ensures steps + 1 <= SectorCount(firmware) + 1 + k
      ensures if errFatal != None || complete then
                && (complete ==> flash.mem[START..START + |firmware|] == firmware
                                 && flash.log != [] && flash.log[|flash.log| - 1] == Booted(START, firmware))
                && Outcome(firmware, flash.Obeys(), flash.emptyIsErased, complete, errFatal)
                && Trace(firmware, m0, flash.mem, log0, flash.log, flash.lossesLeft == k, complete)
              else
                && RunSoFar(m0, log0, k, steps + 1)
                && flash.lossesLeft - firmwareIndex < old(flash.lossesLeft) - old(firmwareIndex)
    {
      hide FirmwareUploadProcedure.Room, Held, SameOutside, Allowed, Blank, SectorAt, FlashDevice.Obeys,
          FlashDevice.ReadsErased, StepResult, Outcome, NoBlankBelow, SectorsBelow, SectorCount, SectorStart,
          AllowedSince, Traced, TracedSoFar, Trace;
      ghost var index, mem, log, losses := firmwareIndex, flash.mem, flash.log, flash.lossesLeft;
      ghost var readsErased := flash.ReadsErased(firmware);
      complete, errWarn, errFatal := Step();
      AllowedAlso(firmware, log0, log, flash.log);
      StepsCounted(firmware, index, firmwareIndex, losses, flash.lossesLeft, flash.log,
                   flash.Obeys(), readsErased, complete, errWarn, errFatal);
      if errFatal != None || complete {
        LastStep(flash, firmware, index, firmwareIndex, losses, flash.log, complete, errWarn, errFatal);
        WholeImage(firmware, firmwareIndex, flash.mem);
        TraceEnds(firmware, index, m0, mem, flash.mem, log0, log, flash.log,
                  losses == k, flash.lossesLeft == k, complete, errWarn, errFatal);
      } else {
        OnToTheNext(firmware, index, firmwareIndex, m0, mem, flash.mem, log0, log, flash.log, losses, flash.lossesLeft,
                    k, readsErased, flash.Obeys(), errWarn);
      }
    }
  }

  lemma OnToTheNext(fw: seq<byte>, index: nat, index': nat, m0: seq<byte>, m1: seq<byte>, m2: seq<byte>,
                    log0: seq<Event>, log1: seq<Event>, log2: seq<Event>, losses: nat, losses': nat, k: nat,
                    readsErased: bool, obeys: bool, warn: Option<Warning>)
    requires TracedSoFar(fw, index, m0, m1, log0, log1, losses == k) && losses <= k
    requires StepResult(fw, index, index', losses, losses', log2, obeys, readsErased, false, warn, None)
    requires Traced(fw, index, m1, m2, log1, log2, warn, None)
    requires index < |fw| ==> Effect(fw, START + index, m1, m2, log1, log2)
    ensures TracedSoFar(fw, index', m0, m2, log0, log2, losses' == k) && losses' <= k
  {
    hide TracedSoFar, Traced, SectorAt, Blank, SameOutside;
    TraceGoesOn(fw, index, index', m0, m1, m2, log0, log1, log2, losses == k, losses' == k, warn);
  }

  lemma RoomForAll(p: FirmwareUploadProcedure)
    requires p.Valid()
    ensures START + |p.firmware| <= |p.flash.mem|
  {
    assert |p.firmware| <= SectorCount(p.firmware) * SECTOR;
  }

  lemma SectorHasRoom(p: FirmwareUploadProcedure)
    requires p.Valid() && SectorStart(p.firmware, p.firmwareIndex)
    ensures p.memoryAddress == START + p.firmwareIndex && p.firmwareIndex < |p.firmware|
    ensures START + p.firmwareIndex + SECTOR <= |p.flash.mem|
    ensures SectorAt(p.firmware, p.firmwareIndex) != []
    ensures Held(p.firmware, p.firmwareIndex, p.flash.mem)
  {
    SectorsFit(p.firmware, p.firmwareIndex);
  }

  /** How a run ends. It completes only without a blank sector. Of a device that at worst
      loses replies, no erase or write is refused; the upload fails on a sector exactly when
      the image has a blank one; and unless the reply to the final check or to the boot
      command was lost, it completes exactly when the image has none (and, for the empty
      image, when the device does not call an empty range erased). */
  ghost predicate Outcome(fw: seq<byte>, obeys: bool, emptyIsErased: bool, complete: bool, fatal: Option<Failure>) {
    && (complete <==> fatal == None)
    && (complete ==> !HasBlankSector(fw))
    && (obeys ==>
          && fatal !in {Some(EraseRefused), Some(WriteRefused)}
          && (fatal == Some(SectorMismatch) <==> HasBlankSector(fw))
          && (fatal !in {Some(FinalCheckLost), Some(BootFailed)} ==>
                (complete <==> !HasBlankSector(fw) && (fw == [] ==> !emptyIsErased))))
  }

  /** The smallest image that cannot be uploaded: one byte, 0xFF. No run over it completes, and
      with a device that at worst loses replies each ends in a mismatch of its only sector. */
  lemma OneBlankByte(obeys: bool, emptyIsErased: bool, complete: bool, fatal: Option<Failure>)
    requires Outcome([0xFF], obeys, emptyIsErased, complete, fatal)
    ensures !complete && fatal != None
    ensures obeys ==> fatal == Some(SectorMismatch)
  {
    assert SectorStart([0xFF], 0) && Blank(SectorAt([0xFF], 0));
  }

  lemma NothingDone(fw: seq<byte>, log: seq<Event>)
    ensures NoBlankBelow(fw, 0) && SectorsBelow(0) == 0 && AllowedSince(fw, log, log)
  {
  }

  // The steps that go on count one sector or one loss each.
  lemma StepsCounted(fw: seq<byte>, index: nat, index': nat, losses: nat, losses': nat, log: seq<Event>,
                     obeys: bool, readsErased: bool, done: bool, warn: Option<Warning>, fatal: Option<Failure>)
    requires StepResult(fw, index, index', losses, losses', log, obeys, readsErased, done, warn, fatal)
    requires NoBlankBelow(fw, index)
    ensures SectorsBelow(index) <= SectorCount(fw)
    ensures losses' <= losses && (done ==> index == |fw| && fatal == None)
    ensures !done && fatal == None ==>
              && NoBlankBelow(fw, index') && index <= index' <= |fw|
              && SectorsBelow(index') - losses' == SectorsBelow(index) - losses + 1
              && losses' - index' < losses - index
  {
    if !done && fatal == None && warn == None {
      NextSector(fw, index);
    }
  }

  lemma LastStep(flash: FlashDevice, fw: seq<byte>, index: nat, index': nat, losses: nat, log: seq<Event>,
                 done: bool, warn: Option<Warning>, fatal: Option<Failure>)
    requires StepResult(fw, index, index', losses, flash.lossesLeft, log, flash.Obeys(), flash.ReadsErased(fw),
                        done, warn, fatal)
    requires NoBlankBelow(fw, index) && (done || fatal != None)
    ensures Outcome(fw, flash.Obeys(), flash.emptyIsErased, done, fatal)
    ensures done ==> index' == |fw| && log != [] && log[|log| - 1] == Booted(START, fw)
  {
    hide Blank, SectorAt, FlashDevice.Obeys;
    if index == |fw| {
      NoBlankSector(fw);
    } else if flash.Obeys() {
      assert SectorStart(fw, index) && Blank(SectorAt(fw, index));
    }
  }

  lemma WholeImage(fw: seq<byte>, index: nat, m: seq<byte>)
    requires Held(fw, index, m)
    ensures index == |fw| ==> m[START..START + |fw|] == fw
  {
    assert fw[..|fw|] == fw;
  }

  /** What one step of a procedure that has neither failed nor completed comes to. */
  ghost predicate StepResult(fw: seq<byte>, index: nat, index': nat, losses: nat, losses': nat, log: seq<Event>,
                             obeys: bool, readsErased: bool,
                             done: bool, warn: Option<Warning>, fatal: Option<Failure>)
  {
    && index <= index' <= |fw| && losses' <= losses
    && (warn == None || fatal == None)
    && if index == |fw| then
         && warn == None && (done <==> fatal == None)
         && fatal in {None, Some(FinalCheckLost), Some(FinalMismatch), Some(BootFailed)}
         && (fatal != Some(FinalCheckLost) ==> (fatal == Some(FinalMismatch) <==> readsErased))
         && (done ==> log != [] && log[|log| - 1] == Booted(START, fw))
       else
         var s := SectorAt(fw, index);
         && !done && SectorStart(fw, index)
         && losses' == losses - (if warn == None then 0 else 1)
         && (if warn == None && fatal == None then index' == index + |s| && !Blank(s) else index' == index)
         && (obeys ==> fatal == if warn == None && Blank(s) then Some(SectorMismatch) else None)
  }
}

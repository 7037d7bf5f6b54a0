/** Request sessions over the serial line (meshmesh/meshmeshapi.go): clients queue sessions,
    one goroutine writes them to the port, another reads frames and hands replies out.

    The goroutines are interleaved at every point where another one can see the difference:
    taking a session off the queue, writing it to the port, marking the connection busy,
    waking the client up, and marking the connection idle again are steps of their own. */
module SessionScheduler {
  import opened Basics

  const LOG_EVENT_API_REPLY: byte := 57
  const CONNECTED_PATH_API_REPLY: byte := 123
  const CONNECTED_UNICAST_REQUEST: byte := 114
  const DISCOVERY_API_REPLY: byte := 27
  const FLASH_OPERATION_API_REPLY: byte := 31
  const DISC_RESET_TABLE_API_REPLY: byte := 1

  // ---------------------------------------------------------------- which reply is awaited

  datatype Awaited = Awaited(wait1: byte, wait2: byte) | Refused | OutOfRange

  function ReplyTo(b: byte): byte { (b & 0xFE) + 1 }

  function AwaitedReplyBytes(frame: seq<byte>, index: nat): Awaited {
    if index >= |frame| then OutOfRange
    else
      var wantType := ReplyTo(frame[index]);
      if wantType == DISCOVERY_API_REPLY || wantType == FLASH_OPERATION_API_REPLY then
        if index + 1 >= |frame| then OutOfRange else Awaited(wantType, ReplyTo(frame[index + 1]))
      else Awaited(wantType, 0)
  }

  function AwaitedReply(frame: seq<byte>): Awaited {
    if frame == [] then Refused
    else if frame[0] == CONNECTED_UNICAST_REQUEST then
      if |frame| < 6 then Refused else AwaitedReplyBytes(frame, 5)
    else AwaitedReplyBytes(frame, 0)
  }

  predicate AssertType(frame: seq<byte>, wanted: byte, wantedSubtype: byte) {
    !(frame == [] || (frame[0] != wanted && wantedSubtype > 0 && (|frame| < 2 || frame[1] != wantedSubtype)))
  }

  lemma ReplyIsOdd(b: byte)
    ensures ReplyTo(b) & 1 == 1 && ReplyTo(b) > 0
  {
  }

  /** A session made for a request always waits: its reply type is odd, so never 0. It has a
      subtype exactly for the discovery and the flash operations. */
  lemma RequestsAreAwaited(frame: seq<byte>)
    requires AwaitedReply(frame).Awaited?
    ensures var a := AwaitedReply(frame);
            && a.wait1 & 1 == 1 && a.wait1 > 0
            && (a.wait2 > 0 <==> a.wait1 == DISCOVERY_API_REPLY || a.wait1 == FLASH_OPERATION_API_REPLY)
  {
    forall b ensures ReplyTo(b) & 1 == 1 && ReplyTo(b) > 0 { ReplyIsOdd(b); }
  }

  // Which byte of a request tells its type.
  function TypeAt(frame: seq<byte>): nat
    requires frame != []
  {
    if frame[0] == 114 then 5 else 0
  }

  predicate HasSubtype(b: byte) { b == 26 || b == 27 || b == 30 || b == 31 }

  lemma ReplyToIs(b: byte)
    ensures ReplyTo(b) as int == if b as int % 2 == 0 then b as int + 1 else b as int
  {
  }

  /** What a request waits for, for every frame. It is refused exactly when it is empty or a
      unicast frame without its sixth byte, and read past its end exactly when its second type
      byte is missing. Else the type is that of the request, made odd: byte 0, or byte 5 of a
      unicast frame; the subtype is the byte behind it, made odd too, for discovery and flash
      operations, and 0 for all others. No other byte matters. */
  lemma AwaitedReplyIs(frame: seq<byte>)
    ensures AwaitedReply(frame).Refused? <==> frame == [] || (frame[0] == 114 && |frame| < 6)
    ensures AwaitedReply(frame).OutOfRange? <==>
              && frame != [] && |frame| == TypeAt(frame) + 1 && HasSubtype(frame[TypeAt(frame)])
    ensures AwaitedReply(frame).Awaited? ==>
              var a, i := AwaitedReply(frame), TypeAt(frame);
              && i < |frame|
              && (frame[i] as int % 2 == 0 ==> a.wait1 as int == frame[i] as int + 1)
              && (frame[i] as int % 2 == 1 ==> a.wait1 == frame[i])
              && (!HasSubtype(frame[i]) ==> a.wait2 == 0)
              && (HasSubtype(frame[i]) ==>
                    && i + 1 < |frame|
                    && (frame[i + 1] as int % 2 == 0 ==> a.wait2 as int == frame[i + 1] as int + 1)
                    && (frame[i + 1] as int % 2 == 1 ==> a.wait2 == frame[i + 1]))
  {
    forall b ensures ReplyTo(b) as int == if b as int % 2 == 0 then b as int + 1 else b as int {
      ReplyToIs(b);
    }
    hide ReplyTo;
    if frame != [] && TypeAt(frame) < |frame| {
      FamilyOf(frame[TypeAt(frame)]);
    }
  }

  lemma FamilyOf(b: byte)
    ensures ReplyTo(b) == DISCOVERY_API_REPLY || ReplyTo(b) == FLASH_OPERATION_API_REPLY <==> HasSubtype(b)
  {
    ReplyToIs(b);
  }

  /** Whatever a session waits for, some frame of another type is taken for its reply. */
  lemma AnotherTypeIsAccepted(wait1: byte, wait2: byte) returns (frame: seq<byte>)
    ensures AssertType(frame, wait1, wait2) && frame[0] != wait1
  {
    var other: byte := if wait1 == 0 then 1 else 0;
    frame := [other, wait2];
  }

  // ---------------------------------------------------------------- the machine

  datatype Client = Created | Added | Queued | Returned

  /** A session: what it waits for, its wait group, and how far its client has come. */
  datatype Session = Session(wait1: byte, wait2: byte, count: int, reply: Option<seq<byte>>, client: Client)

  predicate Awaitable(s: Session) { s.wait1 > 0 }

  /** Where the writing goroutine is. It stops for good when the port fails under it. */
  datatype Writer = Idle | Took(id: nat) | Wrote(id: nat) | Stopped(id: nat)

  /** Where the reading goroutine is: Woke has called Done but not yet cleared the session. */
  datatype Reader = Reading | Woke(id: nat) | Gone

  /** The last four fields only record what has happened. */
  datatype State = State(
    sessions: seq<Session>,
    queue: seq<nat>,
    session: Option<nat>,
    writer: Writer,
    reader: Reader,
    adds: seq<nat>,
    queued: seq<nat>,
    sent: seq<nat>,
    releases: seq<nat>)

  const START := State([], [], None, Idle, Reading, [], [], [], [])

  datatype Action =
    | Create(wait1: byte, wait2: byte)   // NewSerialSession, NewSimpleSerialSession
    | Add(id: nat)                       // Wait.Add(1)
    | Enqueue(id: nat)                   // QueueApiSession
    | Return(id: nat)                    // Wait.Wait() is over
    | Take                               // the writer removes the front of the queue
    | PortWrite(ok: bool)
    | Mark                               // the writer sets session, if a reply is awaited
    | Frame(data: seq<byte>)             // ReadFrame, up to Done
    | Timeout                            // checkSessionTimeout, up to Done
    | Clear                              // session = nil
    | ReadFails

  predicate Enabled(s: State, a: Action) {
    match a
    case Create(_, _) => true
    case Add(id) => id < |s.sessions| && s.sessions[id].client == Created && Awaitable(s.sessions[id])
    case Enqueue(id) =>
      id < |s.sessions| && s.sessions[id].client == (if Awaitable(s.sessions[id]) then Added else Created)
    case Return(id) =>
      id < |s.sessions| && s.sessions[id].client == Queued && (Awaitable(s.sessions[id]) ==> s.sessions[id].count == 0)
    case Take => s.writer == Idle && s.session == None && s.queue != []
    case PortWrite(_) => s.writer.Took?
    case Mark => s.writer.Wrote? && s.writer.id < |s.sessions|
    case Frame(data) => s.reader == Reading && data != [] && (s.session.Some? ==> s.session.value < |s.sessions|)
    case Timeout => s.reader == Reading && s.session.Some? && s.session.value < |s.sessions|
    case Clear => s.reader.Woke?
    case ReadFails => s.reader == Reading
  }

  function Put(s: State, id: nat, x: Session): State
    requires id < |s.sessions|
  {
    s.(sessions := s.sessions[id := x])
  }

  // Reply and Done, or the loss of both, for the outstanding session.
  function Release(s: State, id: nat, reply: Option<seq<byte>>): State
    requires id < |s.sessions|
  {
    var x := s.sessions[id];
    if Awaitable(x) then
      Put(s, id, x.(reply := reply, count := x.count - 1)).(reader := Woke(id), releases := s.releases + [id])
    else Put(s, id, x.(reply := reply)).(reader := Woke(id))
  }

  /** The dispatch of ReadFrame. A log line or a connected path packet goes elsewhere, even
      while a session is outstanding; what matches no session is dropped. */
  function OnFrame(s: State, data: seq<byte>): State
    requires Enabled(s, Frame(data))
  {
    if data[0] == LOG_EVENT_API_REPLY || data[0] == CONNECTED_PATH_API_REPLY then s
    else if s.session == None then s
    else
      var id := s.session.value;
      var x := s.sessions[id];
      if Awaitable(x) && AssertType(data, x.wait1, x.wait2) then Release(s, id, Some(data)) else s
  }

  function Next(s: State, a: Action): State
    requires Enabled(s, a)
  {
    match a
    case Create(w1, w2) => s.(sessions := s.sessions + [Session(w1, w2, 0, None, Created)])
    case Add(id) =>
      var x := s.sessions[id];
      Put(s, id, x.(count := x.count + 1, client := Added)).(adds := s.adds + [id])
    case Enqueue(id) =>
      Put(s, id, s.sessions[id].(client := Queued)).(queue := s.queue + [id], queued := s.queued + [id])
    case Return(id) => Put(s, id, s.sessions[id].(client := Returned))
    case Take => s.(queue := s.queue[1..], writer := Took(s.queue[0]))
    case PortWrite(ok) =>
      if ok then s.(writer := Wrote(s.writer.id), sent := s.sent + [s.writer.id])
      else s.(writer := Stopped(s.writer.id))
    case Mark =>
      if Awaitable(s.sessions[s.writer.id]) then s.(writer := Idle, session := Some(s.writer.id))
      else s.(writer := Idle)
    case Frame(data) => OnFrame(s, data)
    case Timeout => Release(s, s.session.value, None)
    case Clear => s.(session := None, reader := Reading)
    case ReadFails => s.(reader := Gone)
  }

  ghost predicate ValidRun(s: State, acts: seq<Action>)
    decreases |acts|
  {
    acts == [] || (Enabled(s, acts[0]) && ValidRun(Next(s, acts[0]), acts[1..]))
  }

  function RunState(s: State, acts: seq<Action>): State
    requires ValidRun(s, acts)
    decreases |acts|
  {
    if acts == [] then s else RunState(Next(s, acts[0]), acts[1..])
  }

  // ---------------------------------------------------------------- the invariant

  // The session the writer holds that the port has not got (yet).
  function InHand(w: Writer): seq<nat> {
    if w.Took? || w.Stopped? then [w.id] else []
  }

  /** The request that is on the line and awaits its reply. */
  function Outstanding(s: State): seq<nat> {
    if s.writer.Wrote? then Only(s, s.writer.id)
    else if s.session.Some? && !s.reader.Woke? then [s.session.value]
    else []
  }

  function Only(s: State, id: nat): seq<nat> {
    if id < |s.sessions| && Awaitable(s.sessions[id]) then [id] else []
  }

  function Awaiting(s: State, ids: seq<nat>): seq<nat> {
    if ids == [] then [] else Awaiting(s, ids[..|ids| - 1]) + Only(s, ids[|ids| - 1])
  }

  // Clients between Add and Enqueue.
  function Adding(xs: seq<Session>): nat {
    if xs == [] then 0 else Adding(xs[..|xs| - 1]) + if xs[|xs| - 1].client == Added then 1 else 0
  }

  predicate KnownIds(s: State, ids: seq<nat>) { forall i :: 0 <= i < |ids| ==> ids[i] < |s.sessions| }

  /** Sessions go to the port in the order they were queued, each at most once. */
  predicate InOrder(s: State) {
    && s.queued == s.sent + InHand(s.writer) + s.queue
    && Distinct(s.queued) && KnownIds(s, s.queued)
    && (s.writer.Wrote? ==> s.sent != [] && s.writer.id == s.sent[|s.sent| - 1])
  }

  /** While a session is outstanding the writer rests, and only an awaited one is marked. */
  predicate Exclusive(s: State) {
    && (s.session.Some? ==>
          s.writer == Idle && s.session.value < |s.sessions| && Awaitable(s.sessions[s.session.value]))
    && (s.reader.Woke? ==> s.session == Some(s.reader.id))
  }

  /** The awaited requests on the port, in order, are the released ones and the outstanding
      one if there is one: a release always answers the last request written. */
  predicate Answered(s: State) {
    Awaiting(s, s.sent) == s.releases + Outstanding(s)
  }

  // The count and the places of one session agree.
  predicate SessionCounted(x: Session, added: bool, queued: bool, released: bool) {
    && (added <==> x.client != Created && Awaitable(x))
    && (queued <==> x.client == Queued || x.client == Returned)
    && x.count == (if added && !released then 1 else 0)
    && (x.client == Returned && Awaitable(x) ==> released)
  }

  predicate Counted(s: State) {
    && Distinct(s.adds) && KnownIds(s, s.adds)
    && forall id :: 0 <= id < |s.sessions| ==>
         SessionCounted(s.sessions[id], id in s.adds, id in s.queued, id in s.releases)
  }

  predicate Balanced(s: State) {
    |s.adds| == |Awaiting(s, s.queued)| + Adding(s.sessions)
  }

  predicate Inv(s: State) {
    InOrder(s) && Exclusive(s) && Answered(s) && Counted(s) && Balanced(s)
  }

  // ---------------------------------------------------------------- counting

  lemma {:induction false} AwaitingJoin(s: State, a: seq<nat>, b: seq<nat>)
    ensures Awaiting(s, a + b) == Awaiting(s, a) + Awaiting(s, b)
  {
    if b == [] {
      assert a + b == a;
    } else {
      var n := |b| - 1;
      assert (a + b)[..|a + b| - 1] == a + b[..n];
      AwaitingJoin(s, a, b[..n]);
    }
  }

  lemma AwaitingSnoc(s: State, a: seq<nat>, id: nat)
    ensures Awaiting(s, a + [id]) == Awaiting(s, a) + Only(s, id)
  {
    assert (a + [id])[..|a|] == a;
  }

  // Sessions never change what they wait for.
  predicate SameWaits(s: State, s': State) {
    && |s.sessions| <= |s'.sessions|
    && forall id :: 0 <= id < |s.sessions| ==> s'.sessions[id].wait1 == s.sessions[id].wait1
  }

  lemma {:induction false} AwaitingSame(s: State, s': State, ids: seq<nat>)
    requires SameWaits(s, s') && KnownIds(s, ids)
    ensures Awaiting(s', ids) == Awaiting(s, ids)
  {
    if ids != [] { AwaitingSame(s, s', ids[..|ids| - 1]); }
  }

  lemma {:induction false} AwaitingInside(s: State, ids: seq<nat>)
    ensures forall x :: x in Awaiting(s, ids) <==> x in ids && x < |s.sessions| && Awaitable(s.sessions[x])
  {
    if ids != [] {
      var n := |ids| - 1;
      AwaitingInside(s, ids[..n]);
      assert ids == ids[..n] + [ids[n]];
    }
  }

  lemma {:induction false} AddingPut(xs: seq<Session>, id: nat, x: Session)
    requires id < |xs|
    ensures Adding(xs[id := x])
      == Adding(xs) - (if xs[id].client == Added then 1 else 0) + (if x.client == Added then 1 else 0)
  {
    var n := |xs| - 1;
    if id == n {
      assert xs[id := x][..n] == xs[..n];
    } else {
      assert xs[id := x][..n] == xs[..n][id := x];
      AddingPut(xs[..n], id, x);
    }
  }

  lemma {:induction false} DistinctAwaiting(s: State, ids: seq<nat>)
    requires Distinct(ids)
    ensures Distinct(Awaiting(s, ids))
  {
    if ids != [] {
      DistinctAwaiting(s, ids[..|ids| - 1]);
      AwaitingInside(s, ids[..|ids| - 1]);
    }
  }

  // ---------------------------------------------------------------- one step

  lemma StepKeepsWaits(s: State, a: Action)
    requires Enabled(s, a)
    ensures SameWaits(s, Next(s, a))
  {
  }

  lemma OrderStep(s: State, a: Action)
    requires InOrder(s) && Counted(s) && Enabled(s, a)
    ensures InOrder(Next(s, a))
  {
    var s' := Next(s, a);
    StepKeepsWaits(s, a);
    assert a.Enqueue? ==> a.id !in s.queued;
    hide InOrder, Counted, SameWaits;
    match a {
      case Enqueue(id) => LineGrows(s, s', id);
      case Take => LineMoves(s, s');
      case PortWrite(ok) => LineMoves(s, s');
      case Mark => LineMoves(s, s');
      case _ => LineMoves(s, s');
    }
  }

  // A session moves on from the queue to the writer, or from the writer to the port.
  lemma LineMoves(s: State, s': State)
    requires InOrder(s) && SameWaits(s, s') && s'.queued == s.queued
    requires || (s'.queue == s.queue && s'.sent == s.sent && InHand(s'.writer) == InHand(s.writer)
                 && (s'.writer == s.writer || !s'.writer.Wrote?))
             || (s'.sent == s.sent && s.writer == Idle && s.queue != []
                 && s'.writer == Took(s.queue[0]) && s'.queue == s.queue[1..])
             || (s'.queue == s.queue && s.writer.Took? && s'.writer == Wrote(s.writer.id)
                 && s'.sent == s.sent + [s.writer.id])
    ensures InOrder(s')
  {
    hide Distinct;
    assert KnownIds(s', s'.queued);
    if s'.queue != s.queue {
      assert [s.queue[0]] + s.queue[1..] == s.queue;
    }
    assert s'.sent + InHand(s'.writer) + s'.queue == s.sent + InHand(s.writer) + s.queue;
  }

  lemma LineGrows(s: State, s': State, id: nat)
    requires InOrder(s) && id !in s.queued && id < |s.sessions| && |s'.sessions| == |s.sessions|
    requires s'.queue == s.queue + [id] && s'.queued == s.queued + [id] && s'.sent == s.sent && s'.writer == s.writer
    ensures InOrder(s')
  {
    assert s'.sent + InHand(s'.writer) + s'.queue == s.queued + [id];
  }

  lemma ExclusiveStep(s: State, a: Action)
    requires Exclusive(s) && Enabled(s, a)
    ensures Exclusive(Next(s, a))
  {
  }

  lemma AnsweredStep(s: State, a: Action)
    requires InOrder(s) && Exclusive(s) && Answered(s) && Enabled(s, a)
    ensures Answered(Next(s, a))
  {
    var s' := Next(s, a);
    StepKeepsWaits(s, a);
    if a.Frame? || a.Timeout? {
      hide Release, AssertType, Outstanding, Awaiting, InOrder, SameWaits;
      if s' != s {
        AnsweredRelease(s, s.session.value, if a.Frame? then Some(a.data) else None);
      }
    } else if a == PortWrite(true) {
      WriterIsKnown(s);
      AnsweredWrite(s, s');
    } else {
      if s.writer != Idle { WriterIsKnown(s); }
      hide Awaiting, InOrder, KnownIds;
      AnsweredRest(s, s');
    }
  }

  lemma AnsweredWrite(s: State, s': State)
    requires InOrder(s) && Exclusive(s) && Answered(s)
    requires s.writer.Took? && s.writer.id < |s.sessions|
    requires s' == s.(writer := Wrote(s.writer.id), sent := s.sent + [s.writer.id])
    ensures Answered(s')
  {
    SentIsKnown(s);
    AwaitingSnoc(s, s.sent, s.writer.id);
    AwaitingSame(s, s', s.sent + [s.writer.id]);
  }

  lemma AnsweredRest(s: State, s': State)
    requires InOrder(s) && Answered(s) && SameWaits(s, s') && s'.sent == s.sent && s'.releases == s.releases
    requires Outstanding(s') == Outstanding(s)
    ensures Answered(s')
  {
    SentIsKnown(s);
    AwaitingSame(s, s', s.sent);
  }

  lemma AnsweredRelease(s: State, id: nat, reply: Option<seq<byte>>)
    requires Exclusive(s) && Answered(s) && s.session == Some(id) && !s.reader.Woke? && InOrder(s)
    ensures Answered(Release(s, id, reply))
  {
    SentIsKnown(s);
    AwaitingSame(s, Release(s, id, reply), s.sent);
    assert Outstanding(s) == [id] && Outstanding(Release(s, id, reply)) == [];
  }

  lemma SentIsKnown(s: State)
    requires InOrder(s)
    ensures KnownIds(s, s.sent)
  {
    forall i | 0 <= i < |s.sent| ensures s.sent[i] < |s.sessions| {
      assert s.queued[i] == s.sent[i];
    }
  }

  lemma WriterIsKnown(s: State)
    requires InOrder(s) && s.writer != Idle
    ensures s.writer.id < |s.sessions| && s.writer.id in s.queued
  {
    if s.writer.Wrote? {
      assert s.queued[|s.sent| - 1] == s.writer.id;
    } else {
      assert s.queued[|s.sent|] == s.writer.id;
    }
  }

  /** What is known of the session a release is about: it has been added and queued, it has not
      been released, and so its wait group stands at one. */
  lemma OutstandingSession(s: State)
    requires Inv(s) && s.session.Some? && !s.reader.Woke?
    ensures var id := s.session.value;
            && id in s.adds && id in s.queued && id !in s.releases && id !in s.queue
            && s.sessions[id].count == 1
  {
    var id := s.session.value;
    assert Outstanding(s) == [id];
    AwaitingInside(s, s.sent);
    assert id in Awaiting(s, s.sent) by { assert (s.releases + [id])[|s.releases|] == id; }
    SentComesFirst(s, id);
    SentIsDistinct(s);
    DistinctAwaiting(s, s.sent);
    LastIsNew(s.releases, id);
  }

  lemma LastIsNew(ids: seq<nat>, id: nat)
    requires Distinct(ids + [id])
    ensures id !in ids
  {
    forall i | 0 <= i < |ids| ensures ids[i] != id {
      assert (ids + [id])[i] == ids[i] && (ids + [id])[|ids|] == id;
    }
  }

  lemma SentComesFirst(s: State, id: nat)
    requires InOrder(s) && id in s.sent
    ensures id in s.queued && id !in s.queue
  {
    var i :| 0 <= i < |s.sent| && s.sent[i] == id;
    assert s.queued[i] == id;
    forall j | 0 <= j < |s.queue| ensures s.queue[j] != id {
      assert s.queued[|s.sent| + |InHand(s.writer)| + j] == s.queue[j];
    }
  }

  lemma SentIsDistinct(s: State)
    requires InOrder(s)
    ensures Distinct(s.sent)
  {
    forall i, j | 0 <= i < j < |s.sent| ensures s.sent[i] != s.sent[j] {
      assert s.queued[i] == s.sent[i] && s.queued[j] == s.sent[j];
    }
  }

  lemma CountedStep(s: State, a: Action)
    requires Inv(s) && Enabled(s, a)
    ensures Counted(Next(s, a))
  {
    var s' := Next(s, a);
    hide Release, AssertType;
    match a {
      case Frame(data) =>
        hide InOrder, Answered, Balanced, Distinct, SessionCounted;
        if s' != s { CountedRelease(s, s.session.value, Some(data)); }
      case Timeout => CountedRelease(s, s.session.value, None);
      case Create(_, _) => CountedOther(s, a);
      case Add(id) => CountedAdd(s, id);
      case Enqueue(id) => CountedOther(s, a);
      case Return(id) => CountedOther(s, a);
      case _ =>
        hide InOrder, Exclusive, Answered, Balanced, Distinct, SessionCounted;
    }
  }

  lemma CountedOther(s: State, a: Action)
    requires Inv(s) && Enabled(s, a) && (a.Create? || a.Enqueue? || a.Return?)
    ensures Counted(Next(s, a))
  {
    NotYetKnown(s);
    hide InOrder, Exclusive, Answered, Balanced, Distinct;
  }

  lemma CountedAdd(s: State, id: nat)
    requires Inv(s) && Enabled(s, Action.Add(id))
    ensures Counted(Next(s, Action.Add(id)))
  {
    assert id !in s.adds && id !in s.queued;
    if id in s.releases { ReleasedWereQueued(s, id); }
    DistinctSnoc(s.adds, id);
    hide InOrder, Exclusive, Answered, Balanced, Distinct;
  }

  lemma DistinctSnoc(ids: seq<nat>, id: nat)
    requires Distinct(ids) && id !in ids
    ensures Distinct(ids + [id])
  {
  }

  lemma CountedRelease(s: State, id: nat, reply: Option<seq<byte>>)
    requires Inv(s) && s.session == Some(id) && !s.reader.Woke?
    ensures Counted(Release(s, id, reply))
  {
    OutstandingSession(s);
    hide InOrder, Answered, Balanced, Outstanding, Distinct;
  }

  lemma ReleasedWereQueued(s: State, id: nat)
    requires Inv(s) && id in s.releases
    ensures id in s.queued && id < |s.sessions|
  {
    var i :| 0 <= i < |s.releases| && s.releases[i] == id;
    assert (s.releases + Outstanding(s))[i] == id;
    AwaitingInside(s, s.sent);
    SentComesFirst(s, id);
    SentIsKnown(s);
  }

  lemma NotYetKnown(s: State)
    requires Inv(s)
    ensures var id := |s.sessions|; id !in s.adds && id !in s.queued && id !in s.releases
  {
    forall id | id in s.releases ensures id < |s.sessions| {
      ReleasedWereQueued(s, id);
    }
  }

  // A session changes hands on the client side, or keeps its client.
  lemma BalancedPut(s: State, s': State, id: nat, queued: seq<nat>)
    requires InOrder(s) && Balanced(s) && id < |s.sessions| && |s'.sessions| == |s.sessions| && SameWaits(s, s')
    requires s'.sessions == s.sessions[id := s'.sessions[id]] && s'.queued == s.queued + queued
    requires |s'.adds| - |s.adds| == |Awaiting(s', queued)|
               + (if s'.sessions[id].client == Added then 1 else 0) - (if s.sessions[id].client == Added then 1 else 0)
    ensures Balanced(s')
  {
    AwaitingSame(s, s', s.queued);
    AwaitingJoin(s', s.queued, queued);
    AddingPut(s.sessions, id, s'.sessions[id]);
  }

  lemma BalancedStep(s: State, a: Action)
    requires InOrder(s) && Balanced(s) && Enabled(s, a)
    ensures Balanced(Next(s, a))
  {
    var s' := Next(s, a);
    StepKeepsWaits(s, a);
    hide InOrder, Balanced, Adding, SameWaits;
    match a {
      case Create(w1, w2) => BalancedCreate(s, Session(w1, w2, 0, None, Created));
      case Add(id) => BalancedPut(s, s', id, []) by { assert s.queued + [] == s.queued; }
      case Enqueue(id) =>
        assert Awaiting(s', [id]) == Only(s', id) by {
          AwaitingSnoc(s', [], id);
          assert [] + [id] == [id];
        }
        BalancedPut(s, s', id, [id]);
      case Return(id) => BalancedPut(s, s', id, []) by { assert s.queued + [] == s.queued; }
      case Frame(data) =>
        if s' != s {
          BalancedPut(s, s', s.session.value, []) by { assert s.queued + [] == s.queued; }
        }
      case Timeout => BalancedPut(s, s', s.session.value, []) by { assert s.queued + [] == s.queued; }
      case _ => BalancedRest(s, s');
    }
  }

  lemma BalancedRest(s: State, s': State)
    requires InOrder(s) && Balanced(s) && s'.sessions == s.sessions && s'.adds == s.adds && s'.queued == s.queued
    ensures Balanced(s')
  {
    AwaitingSame(s, s', s.queued);
  }

  lemma BalancedCreate(s: State, x: Session)
    requires InOrder(s) && Balanced(s) && x.client == Created
    ensures Balanced(s.(sessions := s.sessions + [x]))
  {
    var s' := s.(sessions := s.sessions + [x]);
    AwaitingSame(s, s', s.queued);
    assert (s.sessions + [x])[..|s.sessions|] == s.sessions;
  }

  /** Every step of every goroutine keeps the invariant. */
  lemma StepKeepsInv(s: State, a: Action)
    requires Inv(s) && Enabled(s, a)
    ensures Inv(Next(s, a))
  {
    hide InOrder, Exclusive, Answered, Counted, Balanced, Next;
    OrderStep(s, a);
    ExclusiveStep(s, a);
    AnsweredStep(s, a);
    CountedStep(s, a);
    BalancedStep(s, a);
  }

  lemma {:induction false} RunKeepsInv(s: State, acts: seq<Action>)
    requires Inv(s) && ValidRun(s, acts)
    ensures Inv(RunState(s, acts))
    decreases |acts|
  {
    hide Inv, Next;
    if acts != [] {
      StepKeepsInv(s, acts[0]);
      RunKeepsInv(Next(s, acts[0]), acts[1..]);
    }
  }

  // ---------------------------------------------------------------- whole runs

  lemma StartIsFine()
    ensures Inv(START)
  {
  }

  /** What holds after every run, however clients, writer, reader, port and timeouts interleave.
      The port gets the sessions in the order they were queued, each at most once. The awaited
      ones on the port are the released ones, in the same order, and at most one more: so at
      most one request is on the line, and its release comes before the next. No session is
      released twice, and Done never takes a wait group below zero. */
  lemma OneRequestAtATime(acts: seq<Action>)
    requires ValidRun(START, acts)
    ensures var s := RunState(START, acts);
            && s.queued == s.sent + InHand(s.writer) + s.queue && Distinct(s.queued)
            && Awaiting(s, s.sent) == s.releases + Outstanding(s) && |Outstanding(s)| <= 1
            && Distinct(s.releases)
            && (forall id :: id in s.releases ==> id in s.sent && id !in s.queue)
            && (forall x :: x in s.sessions ==> 0 <= x.count <= 1)
            && (s.session.Some? ==> s.writer == Idle)
  {
    StartIsFine();
    RunKeepsInv(START, acts);
    var s := RunState(START, acts);
    SentIsDistinct(s);
    DistinctAwaiting(s, s.sent);
    AwaitingInside(s, s.sent);
    PrefixIsDistinct(s.releases, Outstanding(s));
    forall id | id in s.releases ensures id in s.sent && id !in s.queue {
      var i :| 0 <= i < |s.releases| && s.releases[i] == id;
      assert (s.releases + Outstanding(s))[i] == id;
      SentComesFirst(s, id);
    }
    forall x | x in s.sessions ensures 0 <= x.count <= 1 {
      var id :| 0 <= id < |s.sessions| && s.sessions[id] == x;
      assert SessionCounted(s.sessions[id], id in s.adds, id in s.queued, id in s.releases);
    }
  }

  lemma PrefixIsDistinct(a: seq<nat>, b: seq<nat>)
    requires Distinct(a + b)
    ensures Distinct(a)
  {
    forall i, j | 0 <= i < j < |a| ensures a[i] != a[j] {
      assert (a + b)[i] == a[i] && (a + b)[j] == a[j];
    }
  }

  /** Conservation. Every session that was added to its wait group is in exactly one place:
      not yet queued, in the queue, in the hands of the writer, outstanding, or released. */
  lemma NoSessionIsLost(acts: seq<Action>)
    requires ValidRun(START, acts)
    ensures var s := RunState(START, acts);
            |s.adds| == Adding(s.sessions) + |Awaiting(s, s.queue)| + |Awaiting(s, InHand(s.writer))|
                        + |Outstanding(s)| + |s.releases|
  {
    StartIsFine();
    RunKeepsInv(START, acts);
    var s := RunState(START, acts);
    AwaitingJoin(s, s.sent, InHand(s.writer));
    AwaitingJoin(s, s.sent + InHand(s.writer), s.queue);
  }

  /** A client that waits comes back only after its own session was released, and what it then
      reads has not changed since. */
  lemma ReplyIsFinal(s: State, acts: seq<Action>, id: nat)
    requires Inv(s) && ValidRun(s, acts) && id in s.releases
    ensures id < |s.sessions|
    ensures var s' := RunState(s, acts);
            && id < |s'.sessions| && s'.sessions[id].reply == s.sessions[id].reply
            && id in s'.releases && s'.sessions[id].count == 0
    decreases |acts|
  {
    ReleasedWereQueued(s, id);
    if acts != [] {
      StepKeepsInv(s, acts[0]);
      ReplyIsFinalStep(s, acts[0], id);
      ReplyIsFinal(Next(s, acts[0]), acts[1..], id);
    } else {
      assert SessionCounted(s.sessions[id], id in s.adds, id in s.queued, id in s.releases);
    }
  }

  lemma ReplyIsFinalStep(s: State, a: Action, id: nat)
    requires Inv(s) && Enabled(s, a) && id in s.releases && id < |s.sessions|
    ensures var s' := Next(s, a);
            |s.sessions| <= |s'.sessions| && s'.sessions[id].reply == s.sessions[id].reply && id in s'.releases
  {
    if s.session.Some? && !s.reader.Woke? { OutstandingSession(s); }
    hide InOrder, Answered, Counted, Balanced, AssertType;
  }

  lemma ReturnedWasReleased(s: State, id: nat)
    requires Inv(s) && id < |s.sessions| && s.sessions[id].client == Returned && Awaitable(s.sessions[id])
    ensures id in s.releases
  {
    hide InOrder, Answered, Balanced, Distinct;
    assert SessionCounted(s.sessions[id], id in s.adds, id in s.queued, id in s.releases);
  }

  /** A client that waits can return exactly when its session was released, and nothing else
      changes when it does. */
  lemma ReleasedCanReturn(s: State, id: nat)
    requires Inv(s) && id < |s.sessions| && Awaitable(s.sessions[id]) && s.sessions[id].client == Queued
    ensures Enabled(s, Return(id)) <==> id in s.releases
    ensures Enabled(s, Return(id)) ==>
              var s' := Next(s, Return(id));
              && s'.sessions[id].client == Returned && s'.sessions[id].reply == s.sessions[id].reply
              && (forall j :: 0 <= j < |s.sessions| && j != id ==> s'.sessions[j] == s.sessions[j])
              && s' == s.(sessions := s'.sessions)
  {
    hide InOrder, Answered, Balanced, Distinct;
    assert SessionCounted(s.sessions[id], id in s.adds, id in s.queued, id in s.releases);
  }

  /** After the reader has failed nobody is released any more, whoever waits. */
  lemma {:induction false} FailedReaderStrandsClients(s: State, acts: seq<Action>)
    requires Enabled(s, ReadFails) && ValidRun(Next(s, ReadFails), acts)
    ensures RunState(Next(s, ReadFails), acts).releases == s.releases
  {
    NobodyReads(Next(s, ReadFails), acts);
  }

  lemma {:induction false} NobodyReads(s: State, acts: seq<Action>)
    requires s.reader.Gone? && ValidRun(s, acts)
    ensures RunState(s, acts).releases == s.releases && RunState(s, acts).reader.Gone?
    decreases |acts|
  {
    hide AssertType;
    if acts != [] {
      NobodyReads(Next(s, acts[0]), acts[1..]);
    }
  }

  /** After a failed port write the writer is gone for good: nothing more is sent or released,
      and a client whose session was queued or in the writer's hands waits for ever. */
  lemma {:induction false} StoppedWriterStrandsClients(s: State, acts: seq<Action>)
    requires Inv(s) && s.writer.Stopped? && ValidRun(s, acts)
    ensures var s' := RunState(s, acts);
            && s'.writer == s.writer && s'.sent == s.sent && s'.releases == s.releases
            && s.queue <= s'.queue
            && forall id :: id in InHand(s.writer) + s.queue ==>
                 id < |s.sessions| && id < |s'.sessions| && id !in s'.releases
                 && (Awaitable(s.sessions[id]) ==> s'.sessions[id].client == Queued)
    decreases |acts|
  {
    if acts == [] {
      StrandedNow(s);
    } else {
      StepKeepsInv(s, acts[0]);
      StrandedStep(s, acts[0]);
      StoppedWriterStrandsClients(Next(s, acts[0]), acts[1..]);
      StepKeepsWaits(s, acts[0]);
      StrandedNow(s);
    }
  }

  /** What the writer does, step by step: it takes the front of the queue, and a write that works
      puts the session on the port and one that fails stops the writer; then the session is
      marked as outstanding if it waits for a reply, and the writer is free again. */
  lemma WriterSteps(s: State, ok: bool)
    requires Inv(s) && Enabled(s, Take)
    ensures var id, taken := s.queue[0], Next(s, Take);
            && taken.writer == Took(id) && taken.queue == s.queue[1..] && taken.sent == s.sent
            && Enabled(taken, PortWrite(ok))
            && var written := Next(taken, PortWrite(ok));
               if !ok then written.writer == Stopped(id) && written.sent == s.sent
               else
                 && written.sent == s.sent + [id] && Enabled(written, Mark)
                 && var marked := Next(written, Mark);
                    && marked.writer == Idle && marked.sent == written.sent && marked.queue == s.queue[1..]
                    && marked.session == if Awaitable(s.sessions[id]) then Some(id) else None
  {
    assert s.queued[|s.sent|] == s.queue[0] && s.queue[0] in s.queued;
    hide Answered, Counted, Balanced;
  }

  lemma StrandedNow(s: State)
    requires Inv(s) && s.writer.Stopped?
    ensures forall id :: id in InHand(s.writer) + s.queue ==>
              id < |s.sessions| && id !in s.releases && (Awaitable(s.sessions[id]) ==> s.sessions[id].client == Queued)
  {
    var n := |s.sent|;
    forall id | id in InHand(s.writer) + s.queue
      ensures id < |s.sessions| && id !in s.releases && (Awaitable(s.sessions[id]) ==> s.sessions[id].client == Queued)
    {
      var j :| 0 <= j < |InHand(s.writer) + s.queue| && (InHand(s.writer) + s.queue)[j] == id;
      assert s.queued[n + j] == id;
      forall i | 0 <= i < n ensures s.sent[i] != id { assert s.queued[i] == s.sent[i]; }
      AwaitingInside(s, s.sent);
      forall i | 0 <= i < |s.releases| ensures s.releases[i] != id {
        assert (s.releases + Outstanding(s))[i] == s.releases[i];
        assert s.releases[i] in Awaiting(s, s.sent);
      }
      assert SessionCounted(s.sessions[id], id in s.adds, id in s.queued, id in s.releases);
    }
  }

  lemma StrandedStep(s: State, a: Action)
    requires Inv(s) && s.writer.Stopped? && Enabled(s, a)
    ensures var s' := Next(s, a);
            s'.writer == s.writer && s'.sent == s.sent && s'.releases == s.releases && s.queue <= s'.queue
  {
    hide InOrder, Answered, Counted, Balanced, AssertType;
  }

  // ---------------------------------------------------------------- which frame is taken for the reply

  /** A frame releases a session exactly when one is marked, the frame is neither a log line nor
      a connected path packet, and its type OR its subtype fits, or no subtype is wanted. So a
      session without a subtype takes the first frame there is for its reply, whatever it
      answers; and every other frame leaves the state as it is. */
  lemma FrameReleases(s: State, data: seq<byte>)
    requires Inv(s) && Enabled(s, Frame(data))
    ensures var s' := Next(s, Frame(data));
            if && s.session.Some?
               && data[0] != LOG_EVENT_API_REPLY && data[0] != CONNECTED_PATH_API_REPLY
               && var x := s.sessions[s.session.value];
                  data[0] == x.wait1 || x.wait2 == 0 || (|data| >= 2 && data[1] == x.wait2)
            then var id := s.session.value;
                 s'.releases == s.releases + [id] && s'.sessions[id].reply == Some(data) && s'.sessions[id].count == 0
            else s' == s
  {
    if s.session.Some? && !s.reader.Woke? { OutstandingSession(s); }
    hide InOrder, Answered, Counted, Balanced;
  }

  /** When nobody answers in time the marked session, and no other, is released without a reply. */
  lemma TimeoutReleases(s: State)
    requires Inv(s) && Enabled(s, Timeout)
    ensures var s', id := Next(s, Timeout), s.session.value;
            && s'.releases == s.releases + [id] && s'.sessions[id].reply == None && s'.sessions[id].count == 0
            && (forall j :: 0 <= j < |s.sessions| && j != id ==> s'.sessions[j] == s.sessions[j])
            && s'.queue == s.queue && s'.sent == s.sent
  {
    if s.session.Some? && !s.reader.Woke? { OutstandingSession(s); }
    hide InOrder, Answered, Counted, Balanced;
  }

  /** Who gets to see a frame. */
  datatype Destination = LogHandler | PathHandler | WaitingClient | AssociationHandler | Nobody

  function WhereTo(s: State, data: seq<byte>): Destination
    requires data != [] && (s.session.Some? ==> s.session.value < |s.sessions|)
  {
    if data[0] == LOG_EVENT_API_REPLY then LogHandler
    else if data[0] == CONNECTED_PATH_API_REPLY then PathHandler
    else if s.session.Some? then
      var x := s.sessions[s.session.value];
      if Awaitable(x) && AssertType(data, x.wait1, x.wait2) then WaitingClient else Nobody
    else if AssertType(data, DISCOVERY_API_REPLY, DISC_RESET_TABLE_API_REPLY) then AssociationHandler
    else Nobody
  }

  /** A frame goes to the waiting client exactly when it releases a session. Association
      requests are heard only while no session is marked, and then every frame counts as one
      whose type OR subtype is that of an association. */
  lemma WhereFramesGo(s: State, data: seq<byte>)
    requires Inv(s) && Enabled(s, Frame(data))
    ensures WhereTo(s, data) == WaitingClient <==> Next(s, Frame(data)).releases != s.releases
    ensures WhereTo(s, data) != WaitingClient ==> Next(s, Frame(data)) == s
    ensures WhereTo(s, data) == LogHandler <==> data[0] == 57
    ensures WhereTo(s, data) == PathHandler <==> data[0] == 123
    ensures WhereTo(s, data) == AssociationHandler <==>
              && s.session.None? && data[0] != LOG_EVENT_API_REPLY && data[0] != CONNECTED_PATH_API_REPLY
              && (data[0] == DISCOVERY_API_REPLY || (|data| >= 2 && data[1] == DISC_RESET_TABLE_API_REPLY))
  {
    FrameReleases(s, data);
    if s.session.Some? && !s.reader.Woke? { OutstandingSession(s); }
    hide InOrder, Answered, Counted, Balanced;
  }

  /** A reply that comes back before the writer has marked the connection busy is dropped,
      though its request is on the line: the client waits for a timeout. */
  lemma EarlyReplyIsLost(s: State, data: seq<byte>)
    requires Inv(s) && s.writer.Wrote? && Enabled(s, Frame(data))
    ensures Next(s, Frame(data)) == s
    ensures Enabled(s, Mark)
    ensures Awaitable(s.sessions[s.writer.id]) ==>
              var s' := Next(s, Mark); s'.session == Some(s.writer.id) && s.writer.id !in s'.releases
  {
    WriterIsKnown(s);
    FrameReleases(s, data);
    if Awaitable(s.sessions[s.writer.id]) {
      StepKeepsInv(s, Mark);
      ExclusiveHere(s);
      OutstandingSession(Next(s, Mark));
    }
  }

  lemma ExclusiveHere(s: State)
    requires Inv(s) && s.writer.Wrote?
    ensures s.session == None && !s.reader.Woke?
  {
    hide InOrder, Answered, Counted, Balanced;
  }

  /** Such a state is reached: one client, its request just written, its reply not yet due. */
  lemma AnEarlyReply() returns (acts: seq<Action>)
    ensures ValidRun(START, acts)
    ensures var s := RunState(START, acts);
            && s.writer == Wrote(0) && s.session == None && |s.sessions| == 1 && Awaitable(s.sessions[0])
            && Enabled(s, Frame([1]))
  {
    var s1, s2 := Next(START, Create(1, 0)), ASKING.(queue := [], queued := []).(sessions := [ADDED]);
    assert Next(s1, Action.Add(0)) == s2;
    assert Next(s2, Enqueue(0)) == ASKING;
    var s4 := Next(ASKING, Take);
    var s5 := Next(s4, PortWrite(true));
    assert s5.writer == Wrote(0) && s5.sessions == ASKING.sessions && Enabled(s5, Frame([1]));
    assert Enabled(s4, PortWrite(true)) && Enabled(ASKING, Take);
    assert Enabled(s2, Enqueue(0)) && Enabled(s1, Action.Add(0));
    hide Enabled, Next, Awaitable;
    acts := [];
    acts := Before(s4, PortWrite(true), s5, acts);
    acts := Before(ASKING, Take, s4, acts);
    acts := Before(s2, Enqueue(0), ASKING, acts);
    acts := Before(s1, Action.Add(0), s2, acts);
    acts := Before(START, Create(1, 0), s1, acts);
  }

  const ADDED := Session(1, 0, 1, None, Added)
  const ASKING := State([ADDED.(client := Queued)], [0], None, Idle, Reading, [0], [0], [], [])

  lemma Before(s: State, a: Action, s': State, acts: seq<Action>) returns (more: seq<Action>)
    requires Enabled(s, a) && Next(s, a) == s' && ValidRun(s', acts)
    ensures more == [a] + acts && ValidRun(s, more) && RunState(s, more) == RunState(s', acts)
  {
    more := [a] + acts;
    assert more[1..] == acts;
  }
}

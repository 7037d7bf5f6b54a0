/** Whole runs of one client of a server (meshmesh/esphomeapi.go, meshmesh/apiconnection.go):
    bytes from its socket, replies of the mesh, and its own closing, in any order. The objects
    of Connections keep the inputs they got, and are always what the run over them makes. */
module ClientRuns {
  import opened ConnectedPath
  import opened Forwarding

  /** What others see of a client. */
  datatype Look = Look(events: seq<Event>, toSocket: seq<seq<U8>>, socketOpen: bool)

  /** What one reply does to the client it is for, and whether it ends by closing it. Data goes
      to the socket, any other command to the connection; the client is closed when its data
      cannot be delivered or its connection turns invalid. */
  function Replied(c: Look, command: U8, data: seq<U8>, socketWorks: bool): (Look, bool) {
    if command == SEND_DATA_REQUEST then
      if data == [] then (c, false)
      else if c.socketOpen && socketWorks then (c.(toSocket := c.toSocket + [data]), false)
      else (Closed(c), true)
    else
      var c' := c.(events := c.events + [Path(Reply(command))]);
      if StateAfter(c.events) != Invalid && After(StateAfter(c.events), Reply(command)) == Invalid
      then (Closed(c'), true) else (c', false)
  }

  function Closed(c: Look): Look {
    c.(events := c.events + [Path(Disconnected)], socketOpen := false)
  }

  /** A byte from the socket, a pause in which none came, a reply, or the client closing itself;
      works tells whether a write to the socket goes through, if the reply leads to one. */
  datatype Input = Got(b: U8) | Pause | Answer(command: U8, data: seq<U8>, works: bool) | GaveUp

  const NEW_LOOK := Look([], [], true)

  function Takes(c: Look, x: Input): Look {
    match x
    case Got(b) => c.(events := c.events + [Byte(b)])
    case Pause => c.(events := c.events + [Quiet])
    case Answer(command, data, works) => Replied(c, command, data, works).0
    case GaveUp => Closed(c)
  }

  function RunOf(xs: seq<Input>): Look {
    if xs == [] then NEW_LOOK else Takes(RunOf(xs[..|xs| - 1]), xs[|xs| - 1])
  }

  lemma RunOfMore(xs: seq<Input>, x: Input)
    ensures RunOf(xs + [x]) == Takes(RunOf(xs), x)
  {
    assert (xs + [x])[..|xs|] == xs;
  }

  // ---------------------------------------------------------------- what came in

  predicate IsCommand(x: Input) { x.Answer? && x.command != SEND_DATA_REQUEST }

  predicate IsDelivery(x: Input) { x.Answer? && x.command == SEND_DATA_REQUEST && x.data != [] }

  /** The data of all data replies, in order. */
  function DataOf(xs: seq<Input>): seq<seq<U8>> {
    if xs == [] then []
    else
      var x := xs[|xs| - 1];
      DataOf(xs[..|xs| - 1]) + if IsDelivery(x) then [x.data] else []
  }

  /** All other replies, as what they are for the connection. */
  function CommandsOf(xs: seq<Input>): seq<Happening> {
    if xs == [] then []
    else
      var x := xs[|xs| - 1];
      CommandsOf(xs[..|xs| - 1]) + if IsCommand(x) then [Reply(x.command)] else []
  }

  function GotOf(xs: seq<Input>): seq<U8> {
    if xs == [] then []
    else
      var x := xs[|xs| - 1];
      GotOf(xs[..|xs| - 1]) + if x.Got? then [x.b] else []
  }

  /** What an undisturbed run is for the connection: a reply that is not data moves it, and data
      pass it by. */
  function EventsOf(xs: seq<Input>): seq<Event> {
    if xs == [] then []
    else
      var x := xs[|xs| - 1];
      EventsOf(xs[..|xs| - 1])
      + (match x
         case Got(b) => [Byte(b)]
         case Pause => [Quiet]
         case Answer(command, _, _) => if command != SEND_DATA_REQUEST then [Path(Reply(command))] else []
         case GaveUp => [])
  }

  lemma EventsAdd(before: seq<Input>, x: Input)
    ensures var es, more := EventsOf(before), EventsOf(before + [x]);
            && (x.Got? ==> more == es + [Byte(x.b)])
            && (x.Pause? ==> more == es + [Quiet])
            && (x.Answer? ==> more == if IsCommand(x) then es + [Path(Reply(x.command))] else es)
  {
    assert (before + [x])[..|before|] == before;
  }

  /** Nothing has ended the client: it did not give up, every delivery went through, and the
      commands left the connection valid. */
  predicate Undisturbed(xs: seq<Input>) {
    && (forall i :: 0 <= i < |xs| ==> !xs[i].GaveUp? && (IsDelivery(xs[i]) ==> xs[i].works))
    && AfterAll(HandshakeStarted, CommandsOf(xs)) != Invalid
  }

  lemma OneInputMore(xs: seq<Input>)
    requires xs != []
    ensures var before, x := xs[..|xs| - 1], xs[|xs| - 1];
            Undisturbed(xs) <==>
              && Undisturbed(before) && !x.GaveUp? && (IsDelivery(x) ==> x.works)
              && AfterAll(HandshakeStarted, CommandsOf(xs)) != Invalid
  {
    hide AfterAll, IsDelivery;
    var before, x := xs[..|xs| - 1], xs[|xs| - 1];
    assert forall i :: 0 <= i < |before| ==> before[i] == xs[i];
    assert CommandsOf(before) + [] == CommandsOf(before);
    if IsCommand(x) { CommandMore(CommandsOf(before), Reply(x.command)); }
  }

  lemma CommandMore(hs: seq<Happening>, h: Happening)
    ensures AfterAll(HandshakeStarted, hs + [h]) == After(AfterAll(HandshakeStarted, hs), h)
  {
    assert (hs + [h])[..|hs|] == hs;
  }

  lemma EventMore(es: seq<Event>, e: Event)
    ensures StateAfter(es + [e]) == if e.Path? then After(StateAfter(es), e.h) else StateAfter(es)
    ensures BytesOf(es + [e]) == if e.Byte? then BytesOf(es) + [e.b] else BytesOf(es)
  {
    assert (es + [e])[..|es|] == es;
  }

  // ---------------------------------------------------------------- the client after a run

  /** The state of a client that nothing has ended: all data are on its socket in order, and the
      connection has seen the commands and the bytes. */
  predicate AsItShould(c: Look, xs: seq<Input>) {
    && c.socketOpen && c.toSocket == DataOf(xs)
    && StateAfter(c.events) == AfterAll(HandshakeStarted, CommandsOf(xs)) != Invalid
    && BytesOf(c.events) == GotOf(xs) && c.events == EventsOf(xs)
  }

  lemma InputsAdd(before: seq<Input>, x: Input)
    ensures DataOf(before + [x]) == if IsDelivery(x) then DataOf(before) + [x.data] else DataOf(before)
    ensures CommandsOf(before + [x])
      == if IsCommand(x) then CommandsOf(before) + [Reply(x.command)] else CommandsOf(before)
    ensures GotOf(before + [x]) == if x.Got? then GotOf(before) + [x.b] else GotOf(before)
    ensures Undisturbed(before + [x]) <==>
              && Undisturbed(before) && !x.GaveUp? && (IsDelivery(x) ==> x.works)
              && AfterAll(HandshakeStarted, CommandsOf(before + [x])) != Invalid
  {
    var xs := before + [x];
    assert xs[..|xs| - 1] == before && xs[|xs| - 1] == x;
    OneInputMore(xs);
  }

  // A step of a client that is as it should be.
  lemma GoodStep(c: Look, before: seq<Input>, x: Input)
    requires AsItShould(c, before)
    ensures if !x.GaveUp? && (IsDelivery(x) ==> x.works)
               && AfterAll(HandshakeStarted, CommandsOf(before + [x])) != Invalid
            then AsItShould(Takes(c, x), before + [x])
            else !Takes(c, x).socketOpen && Takes(c, x).toSocket == c.toSocket
  {
    hide AfterAll, StateAfter, BytesOf, DataOf, CommandsOf, GotOf, EventsOf, Undisturbed;
    InputsAdd(before, x);
    EventsAdd(before, x);
    match x {
      case Got(b) => EventMore(c.events, Byte(b));
      case Pause => EventMore(c.events, Quiet);
      case Answer(command, data, works) =>
        if command != SEND_DATA_REQUEST {
          CommandMore(CommandsOf(before), Reply(command));
          EventMore(c.events, Path(Reply(command)));
        }
      case GaveUp =>
    }
  }

  lemma ClosedStep(c: Look, x: Input)
    requires !c.socketOpen
    ensures !Takes(c, x).socketOpen && Takes(c, x).toSocket == c.toSocket
  {
  }

  /** For every run: a client's socket is open exactly as long as nothing has ended it. Then the
      data of all data replies are on the socket in order, and its connection is not invalid,
      but in the state the commands lead to. */
  lemma {:induction false} RunIsOpen(xs: seq<Input>)
    ensures RunOf(xs).socketOpen <==> Undisturbed(xs)
    ensures Undisturbed(xs) ==> AsItShould(RunOf(xs), xs)
  {
    if xs != [] {
      var before, x := xs[..|xs| - 1], xs[|xs| - 1];
      RunIsOpen(before);
      assert xs == before + [x];
      InputsAdd(before, x);
      hide Undisturbed, Takes, CommandsOf, DataOf;
      if Undisturbed(before) {
        GoodStep(RunOf(before), before, x);
      } else {
        ClosedStep(RunOf(before), x);
      }
    }
  }

  /** And once it was closed nothing is written to its socket any more: there are the data that
      came before the input that ended it, at k. */
  lemma {:induction false} RunIsClosed(xs: seq<Input>) returns (k: nat)
    requires !Undisturbed(xs)
    ensures k < |xs| && Undisturbed(xs[..k]) && !Undisturbed(xs[..k + 1])
    ensures RunOf(xs).toSocket == DataOf(xs[..k]) && !RunOf(xs).socketOpen
  {
    var n := |xs| - 1;
    var before, x := xs[..n], xs[n];
    hide Undisturbed, Takes, CommandsOf, DataOf;
    assert xs == before + [x];
    RunIsOpen(before);
    InputsAdd(before, x);
    if Undisturbed(before) {
      GoodStep(RunOf(before), before, x);
      k := n;
      assert xs[..k + 1] == xs;
    } else {
      ClosedStep(RunOf(before), x);
      k := RunIsClosed(before);
      assert before[..k] == xs[..k] && before[..k + 1] == xs[..k + 1];
    }
  }

  // ---------------------------------------------------------------- alive or not

  /** A client that may stay in the list of its server. */
  predicate Live(c: Look) { c.socketOpen && StateAfter(c.events) != Invalid }

  /** Whatever state a client is in: a reply that does not close it leaves it as alive as it
      was, and one that does leaves it dead. */
  lemma ReplyAndLife(c: Look, command: U8, data: seq<U8>, works: bool)
    ensures var (c', closed) := Replied(c, command, data, works);
            && (Live(c') <==> Live(c) && !closed)
            && (closed ==> StateAfter(c'.events) == Invalid && c'.events != [])
            && (closed ==> c'.events[|c'.events| - 1] == Path(Disconnected))
  {
    hide StateAfter, BytesOf, Closed;
    ClosedIsInvalid(c);
    if command != SEND_DATA_REQUEST {
      var e := Path(Reply(command));
      EventMore(c.events, e);
      ClosedIsInvalid(c.(events := c.events + [e]));
    }
  }

  lemma ClosedIsInvalid(c: Look)
    ensures StateAfter(Closed(c).events) == Invalid && !Closed(c).socketOpen && Closed(c).toSocket == c.toSocket
    ensures Closed(c).events == c.events + [Path(Disconnected)]
  {
    EventMore(c.events, Path(Disconnected));
  }
}

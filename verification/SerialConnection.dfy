/** The objects behind SessionScheduler: the session a client waits on and the connection that
    queues, sends and answers sessions (meshmesh/meshmeshapi.go). The ghost field model is the
    state of the machine of SessionScheduler; Valid says that the fields are that state. Every
    method performs actions of the machine, so what SessionScheduler proves of all runs holds
    of the objects. */
module SerialConnection {
  import opened Basics
  import opened SessionScheduler

  class SerialSession {
    const request: seq<byte>
    const waitReply1: byte
    const waitReply2: byte
    var count: int
    var reply: Option<seq<byte>>

    constructor (request: seq<byte>, waitReply1: byte, waitReply2: byte)
      ensures this.request == request && this.waitReply1 == waitReply1 && this.waitReply2 == waitReply2
      ensures count == 0 && reply == None
    {
      this.request, this.waitReply1, this.waitReply2, count, reply := request, waitReply1, waitReply2, 0, None;
    }

    // The session as a value; how far its client has come is not a field of the object.
    function View(client: Client): Session
      reads this
    {
      Session(waitReply1, waitReply2, count, reply, client)
    }

    predicate IsAwaitable() {
      waitReply1 > 0
    }
  }

  class SerialConnection {
    var connected: bool
    var session: SerialSession?
    var sessions: seq<SerialSession>
    ghost var made: seq<SerialSession>  // every session there is; its index is its number
    ghost var model: State

    ghost predicate Valid()
      reads this, made
    {
      && |made| == |model.sessions|
      && (forall i, j :: 0 <= i < j < |made| ==> made[i] != made[j])
      && (forall i :: 0 <= i < |made| ==> made[i].View(model.sessions[i].client) == model.sessions[i])
      && (match model.session
          case None => session == null
          case Some(id) => id < |made| && session == made[id])
      && |sessions| == |model.queue|
      && (forall i :: 0 <= i < |sessions| ==> model.queue[i] < |made| && sessions[i] == made[model.queue[i]])
    }

    constructor ()
      ensures Valid() && model == START && connected
    {
      connected, session, sessions, made, model := true, null, [], [], START;
    }

    /** NewSerialSession: a session that waits for the reply its request asks for. There is none
        for a request that is refused, or too short to tell, on which the program panics. */
    method NewSession(request: seq<byte>) returns (s: SerialSession?)
      requires Valid()
      modifies this`made, this`model
      ensures Valid() && (s != null <==> AwaitedReply(request).Awaited?)
      ensures s == null ==> made == old(made) && model == old(model)
      ensures s != null ==>
                var a := AwaitedReply(request);
                && fresh(s) && s.request == request && made == old(made) + [s]
                && s.waitReply1 == a.wait1 && s.waitReply2 == a.wait2 && s.IsAwaitable()
                && model == Next(old(model), Create(a.wait1, a.wait2))
    {
      var a := AwaitedReply(request);
      match a {
        case Awaited(wait1, wait2) =>
          RequestsAreAwaited(request);
          s := Made(request, wait1, wait2);
        case _ =>
          s := null;
      }
    }

    /** NewSimpleSerialSession: nobody waits for a reply. */
    method NewSimpleSession(request: seq<byte>) returns (s: SerialSession)
      requires Valid()
      modifies this`made, this`model
      ensures Valid() && fresh(s) && s.request == request && made == old(made) + [s] && !s.IsAwaitable()
      ensures model == Next(old(model), Create(0, 0))
    {
      s := Made(request, 0, 0);
    }

    method Made(request: seq<byte>, wait1: byte, wait2: byte) returns (s: SerialSession)
      requires Valid()
      modifies this`made, this`model
      ensures Valid() && fresh(s) && s.request == request && s.waitReply1 == wait1 && s.waitReply2 == wait2
      ensures made == old(made) + [s] && model == Next(old(model), Create(wait1, wait2))
    {
      s := new SerialSession(request, wait1, wait2);
      made := made + [s];
      model := Next(model, Create(wait1, wait2));
      assert forall i :: 0 <= i < |made| - 1 ==> made[i] == old(made)[i];
    }

    // Wait.Add(1).
    method AddWait(s: SerialSession, ghost id: nat)
      requires Valid() && id < |made| && s == made[id] && Enabled(model, Action.Add(id))
      modifies this`model, s`count
      ensures Valid() && model == Next(old(model), Action.Add(id))
    {
      assert made[id].View(model.sessions[id].client) == model.sessions[id];
      s.count := s.count + 1;
      model := Next(model, Action.Add(id));
      assert forall i :: 0 <= i < |made| && i != id ==> made[i] != s;
    }

    method QueueApiSession(s: SerialSession, ghost id: nat)
      requires Valid() && id < |made| && s == made[id] && Enabled(model, Enqueue(id))
      modifies this`sessions, this`model
      ensures Valid() && model == Next(old(model), Enqueue(id)) && sessions == old(sessions) + [s]
    {
      sessions := sessions + [s];
      model := Next(model, Enqueue(id));
    }

    /** sendReceiveApiProt up to the wait, and SendApi: the session joins the queue with its
        wait group at one if it waits for a reply. */
    method Submit(s: SerialSession, ghost id: nat)
      requires Valid() && id < |made| && s == made[id]
      requires id < |model.sessions| && model.sessions[id].client == Created
      modifies this`sessions, this`model, s`count
      ensures Valid() && sessions == old(sessions) + [s]
      ensures model == Submitted(old(model), id)
    {
      assert made[id].View(model.sessions[id].client) == model.sessions[id];
      if s.IsAwaitable() {
        AddWait(s, id);
      }
      QueueApiSession(s, id);
    }

    // Reply, Done, and the idle mark.
    method Release(reply: Option<seq<byte>>)
      requires Valid() && session != null && session.waitReply1 > 0
      modifies this`session, this`model, session
      ensures Valid() && session == null
      ensures old(session).reply == reply && old(session).count == old(session.count) - 1
      ensures model == Released(old(model), reply)
    {
      ghost var id := model.session.value;
      assert made[id].View(model.sessions[id].client) == model.sessions[id];
      session.reply := reply;
      session.count := session.count - 1;
      assert forall i :: 0 <= i < |made| && i != id ==> made[i] != session;
      session := null;
      model := Released(model, reply);
    }

    /** ReadFrame; to says whose handler gets the frame. */
    method ReadFrame(data: seq<byte>) returns (to: Destination)
      requires Valid() && data != [] && model.reader == Reading
      modifies this`session, this`model, session
      ensures Valid() && Enabled(old(model), Frame(data))
      ensures model == Cleared(Next(old(model), Frame(data)))
      ensures to == WhereTo(old(model), data)
    {
      if data[0] == LOG_EVENT_API_REPLY {
        return LogHandler;
      }
      if data[0] == CONNECTED_PATH_API_REPLY {
        return PathHandler;
      }
      to := Nobody;
      if session != null {
        ghost var id := model.session.value;
        assert made[id].View(model.sessions[id].client) == model.sessions[id];
        if session.waitReply1 > 0 && AssertType(data, session.waitReply1, session.waitReply2) {
          Release(Some(data));
          to := WaitingClient;
        }
      } else if AssertType(data, DISCOVERY_API_REPLY, DISC_RESET_TABLE_API_REPLY) {
        to := AssociationHandler;
      }
    }

    /** checkSessionTimeout; expired says whether the time since SentTime is over the limit. */
    method CheckSessionTimeout(expired: bool)
      requires Valid() && model.reader == Reading
      modifies this`session, this`model, session
      ensures Valid()
      ensures if old(session) != null && expired
              then Enabled(old(model), Timeout) && model == Cleared(Next(old(model), Timeout))
              else model == old(model)
    {
      if session != null && expired {
        ghost var id := model.session.value;
        assert made[id].View(model.sessions[id].client) == model.sessions[id];
        if session.waitReply1 > 0 {
          Release(None);
        } else {
          session.reply := None;
          assert forall i :: 0 <= i < |made| && i != id ==> made[i] != session;
          session := null;
          model := Cleared(Next(model, Timeout));
        }
      }
    }

    /** One turn of the loop in Write; portWorks says whether the port takes the bytes. The
        result is false when the loop ends. */
    method WriteOnce(portWorks: bool) returns (goOn: bool)
      requires Valid() && model.writer == Idle
      modifies this`connected, this`session, this`sessions, this`model
      ensures Valid() && goOn == (portWorks || !Enabled(old(model), Take))
      ensures connected == (goOn && old(connected))
      ensures model == if Enabled(old(model), Take) then Turn(old(model), portWorks) else old(model)
      ensures if goOn then model.writer == Idle else model.writer.Stopped?
      ensures Enabled(old(model), Take) ==>
                && sessions == old(sessions)[1..]
                && model.sent == old(model.sent) + (if portWorks then [old(model.queue)[0]] else [])
                && session == if portWorks && old(sessions)[0].waitReply1 > 0 then old(sessions)[0] else null
    {
      if session != null || |sessions| == 0 {
        return true;
      }
      var element := sessions[0];
      ghost var id := model.queue[0];
      assert made[id].View(model.sessions[id].client) == model.sessions[id];
      sessions := sessions[1..];
      model := Turn(model, portWorks);
      if !portWorks {
        connected := false;
        return false;
      }
      if element.waitReply1 > 0 {
        session := element;
      }
      goOn := true;
    }
  }

  // The actions of Submit, of a release, and of one turn of the writer, in a row.
  ghost function Submitted(s: State, id: nat): State
    requires id < |s.sessions| && s.sessions[id].client == Created
  {
    Next(if Awaitable(s.sessions[id]) then Next(s, Action.Add(id)) else s, Enqueue(id))
  }

  ghost function Cleared(s: State): State {
    if s.reader.Woke? then Next(s, Clear) else s
  }

  ghost function Released(s: State, reply: Option<seq<byte>>): State
    requires s.session.Some? && s.session.value < |s.sessions|
  {
    Cleared(SessionScheduler.Release(s, s.session.value, reply))
  }

  ghost function Turn(s: State, portWorks: bool): State
    requires Enabled(s, Take) && s.queue[0] < |s.sessions|
  {
    var sent := Next(Next(s, Take), PortWrite(portWorks));
    if portWorks then Next(sent, Mark) else sent
  }
}

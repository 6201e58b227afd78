/** The connection and session lifecycle as a state machine over whole runs.

    `Step` is the effect of one lifecycle call and `Run` the effect of any sequence of calls on a
    new connection; a refused call is part of a run and changes nothing. */
module Lifecycle {
  import opened Wire
  import opened Header
  import opened Flow

  datatype ConnectionState = ConnectionOpen | ConnectionClosing | ConnectionClosed

  datatype SessionState = Open | Resumed | Closing | Draining | Closed {
    predicate AcceptsSessionScopedMessages() { Open? || Resumed? || Closing? || Draining? }
    predicate AcceptsNewOperations() { Open? || Resumed? }
  }

  datatype SessionStatus = StatusOpened | StatusRejected | StatusRetryLater | StatusResumed
  datatype CloseStatus = Acknowledged | StatusDraining | StatusClosed | CloseRejected

  /** The fields of SESSION_OPEN_ACK the lifecycle reads. */
  datatype OpenAck = OpenAck(
    sessionId: u32, acceptedProfileId: u16, acceptedPriorityClass: byte, status: SessionStatus, schemaId: u32,
    schemaVersion: u32, maxInFlightOperations: u16, routeScopeId: u32, sessionErrorCode: u32)

  datatype SessionClose = SessionClose(lastOperationId: u64, sessionErrorCode: u32)
  datatype SessionCloseAck = SessionCloseAck(status: CloseStatus, lastOperationId: u64, sessionErrorCode: u32)

  datatype Session = Session(
    id: u32, state: SessionState, profileId: u16, priorityClass: byte, schemaId: u32, schemaVersion: u32,
    maxInFlightOperations: u16, routeScopeId: u32, lastOperationId: u64, errorCode: u32)

  datatype Connection = Connection(
    state: ConnectionState, sessions: map<u32, Session>, established: map<u32, SessionState>)

  datatype Event =
    | CloseConnection
    | ApplyOpenAck(ack: OpenAck)
    | BeginClose(header: CommonHeader, close: SessionClose)
    | ApplyCloseAck(header: CommonHeader, closeAck: SessionCloseAck)

  datatype Outcome = Outcome(next: Connection, result: Result<(), NnrpError>)

  function NewConnection(): Connection { Connection(ConnectionOpen, map[], map[]) }

  // ---------------------------------------------------------------- one call

  function CloseAll(sessions: map<u32, Session>): map<u32, Session> {
    map s | s in sessions :: sessions[s].(state := Closed)
  }

  /** The session a successful open ack installs. */
  function Installed(ack: OpenAck): Session {
    Session(ack.sessionId, if ack.status.StatusOpened? then Open else Resumed, ack.acceptedProfileId,
            ack.acceptedPriorityClass, ack.schemaId, ack.schemaVersion, ack.maxInFlightOperations, ack.routeScopeId,
            0, ack.sessionErrorCode)
  }

  function OpenAckResult(c: Connection, ack: OpenAck): Result<(), NnrpError> {
    if !c.state.ConnectionOpen? then Err(ConnectionNotOpen)
    else if ack.status.StatusOpened? || ack.status.StatusResumed? then
      if ack.sessionId == 0 then Err(InvalidProtocolCombination(OpenAckNeedsSession))
      else if ack.sessionId in c.sessions then Err(SessionAlreadyExists(ack.sessionId))
      else Ok(())
    else if ack.sessionId != 0 then Err(InvalidProtocolCombination(RejectedAckCarriesSession))
    else Ok(())
  }

  function StepOpenAck(c: Connection, ack: OpenAck): Outcome {
    var result := OpenAckResult(c, ack);
    if result.Ok? && (ack.status.StatusOpened? || ack.status.StatusResumed?) then
      var s := Installed(ack);
      Outcome(c.(sessions := c.sessions[s.id := s], established := c.established[s.id := s.state]), result)
    else Outcome(c, result)
  }

  function StepBeginClose(c: Connection, h: CommonHeader, close: SessionClose): Outcome {
    if !c.state.ConnectionOpen? then Outcome(c, Err(ConnectionNotOpen))
    else if h.messageType != SESSION_CLOSE then Outcome(c, Err(InvalidProtocolCombination(NotSessionClose)))
    else if h.sessionId == 0 then Outcome(c, Err(InvalidProtocolCombination(SessionCloseZeroSession)))
    else if h.sessionId !in c.sessions then Outcome(c, Err(UnknownSession(h.sessionId)))
    else
      var s := c.sessions[h.sessionId];
      if !s.state.AcceptsNewOperations() then Outcome(c, Err(SessionNotOpen(h.sessionId)))
      else
        var s' := s.(state := Closing, lastOperationId := close.lastOperationId, errorCode := close.sessionErrorCode);
        Outcome(c.(sessions := c.sessions[h.sessionId := s']), Ok(()))
  }

  function StepCloseAck(c: Connection, h: CommonHeader, ack: SessionCloseAck): Outcome {
    if !c.state.ConnectionOpen? then Outcome(c, Err(ConnectionNotOpen))
    else if h.messageType != SESSION_CLOSE_ACK then Outcome(c, Err(InvalidProtocolCombination(NotSessionCloseAck)))
    else if h.sessionId == 0 then Outcome(c, Err(InvalidProtocolCombination(SessionCloseAckZeroSession)))
    else if h.sessionId !in c.sessions then Outcome(c, Err(UnknownSession(h.sessionId)))
    else
      var s := c.sessions[h.sessionId];
      if s.state.Closed? then Outcome(c, Err(SessionNotOpen(h.sessionId)))
      else if ack.status.CloseRejected? && h.sessionId !in c.established then
        Outcome(c, Err(UnknownSession(h.sessionId)))
      else
        var state := match ack.status
          case Acknowledged => Closing
          case StatusDraining => Draining
          case StatusClosed => Closed
          case CloseRejected => c.established[h.sessionId];
        var s' := s.(state := state, lastOperationId := ack.lastOperationId, errorCode := ack.sessionErrorCode);
        Outcome(c.(sessions := c.sessions[h.sessionId := s']), Ok(()))
  }

  function Step(c: Connection, e: Event): Outcome {
    match e
    case CloseConnection =>
      if c.state.ConnectionClosed? then Outcome(c, Err(ConnectionAlreadyClosed))
      else Outcome(c.(state := ConnectionClosed, sessions := CloseAll(c.sessions)), Ok(()))
    case ApplyOpenAck(ack) => StepOpenAck(c, ack)
    case BeginClose(h, close) => StepBeginClose(c, h, close)
    case ApplyCloseAck(h, ack) => StepCloseAck(c, h, ack)
  }

  /** The call of `validate_flow_update`, which reads the connection and changes nothing. */
  function FlowUpdateResult(c: Connection, h: CommonHeader, m: FlowUpdate): Result<(), NnrpError> {
    if !c.state.ConnectionOpen? then Err(ConnectionNotOpen)
    else if ValidateRouting(h, m).Err? then ValidateRouting(h, m)
    else if m.scope.ConnectionScope? then Ok(())
    else if h.sessionId in c.sessions && c.sessions[h.sessionId].state.AcceptsSessionScopedMessages() then Ok(())
    else Err(UnknownSession(h.sessionId))
  }

  // ---------------------------------------------------------------- runs

  function RunFrom(c: Connection, es: seq<Event>): Connection {
    if es == [] then c else Step(RunFrom(c, es[..|es| - 1]), es[|es| - 1]).next
  }

  function Run(es: seq<Event>): Connection { RunFrom(NewConnection(), es) }

  lemma {:induction false} RunFromConcat(c: Connection, es: seq<Event>, more: seq<Event>)
    ensures RunFrom(c, es + more) == RunFrom(RunFrom(c, es), more)
  {
    if more == [] {
      assert es + more == es;
    } else {
      var n := |more| - 1;
      RunFromConcat(c, es, more[..n]);
      assert (es + more)[..|es + more| - 1] == es + more[..n];
    }
  }

  // ---------------------------------------------------------------- what every reachable connection satisfies

  ghost predicate Valid(c: Connection) {
    && c.sessions.Keys == c.established.Keys
    && !c.state.ConnectionClosing?
    && (forall s | s in c.sessions :: s != 0 && c.sessions[s].id == s)
    && (forall s | s in c.established :: c.established[s].Open? || c.established[s].Resumed?)
    && (forall s | s in c.sessions && c.sessions[s].state.AcceptsNewOperations() ::
          s in c.established && c.sessions[s].state == c.established[s])
    && (c.state.ConnectionClosed? ==> forall s | s in c.sessions :: c.sessions[s].state.Closed?)
  }

  lemma {:induction false} StepValid(c: Connection, e: Event)
    requires Valid(c)
    ensures Valid(Step(c, e).next)
  {
  }

  lemma {:induction false} RunValid(es: seq<Event>)
    ensures Valid(Run(es))
  {
    if es != [] {
      RunValid(es[..|es| - 1]);
      StepValid(Run(es[..|es| - 1]), es[|es| - 1]);
    }
  }

  /** In a reachable connection a rejected close always finds the state it rolls back to: the
      call either succeeds and restores an Open or Resumed state, or fails for a reason that is
      visible in the header, the connection or the session, never for a missing established state. */
  lemma {:induction false} RejectedCloseRollsBack(es: seq<Event>, h: CommonHeader, ack: SessionCloseAck)
    requires ack.status.CloseRejected?
    ensures var c := Run(es);
      var o := Step(c, ApplyCloseAck(h, ack));
      && (o.result.Ok? <==>
            && c.state.ConnectionOpen? && h.messageType == SESSION_CLOSE_ACK && h.sessionId in c.sessions
            && !c.sessions[h.sessionId].state.Closed?)
      && (o.result.Ok? ==>
            && h.sessionId in c.established && h.sessionId in o.next.sessions
            && o.next.sessions[h.sessionId].state == c.established[h.sessionId]
            && o.next.sessions[h.sessionId].state.AcceptsNewOperations())
  {
    RunValid(es);
  }

  /** A refused call leaves the whole connection unchanged. */
  lemma {:induction false} RefusedCallChangesNothing(c: Connection, e: Event)
    requires Step(c, e).result.Err?
    ensures Step(c, e).next == c
  {
  }

  // ---------------------------------------------------------------- what never changes again

  predicate SameTerms(a: Session, b: Session) {
    && a.id == b.id && a.profileId == b.profileId && a.priorityClass == b.priorityClass
    && a.schemaId == b.schemaId && a.schemaVersion == b.schemaVersion
    && a.maxInFlightOperations == b.maxInFlightOperations && a.routeScopeId == b.routeScopeId
  }

  /** `d` can follow `c`: sessions are never removed or reinstalled, their negotiated terms and
      their established state are fixed, a closed session is frozen and a closed connection too. */
  ghost predicate Evolves(c: Connection, d: Connection) {
    && (forall s | s in c.sessions :: s in d.sessions && SameTerms(c.sessions[s], d.sessions[s]))
    && (forall s | s in c.sessions && c.sessions[s].state.Closed? :: s in d.sessions && d.sessions[s] == c.sessions[s])
    && (forall s | s in c.established :: s in d.established && d.established[s] == c.established[s])
    && (c.state.ConnectionClosed? ==> d == c)
  }

  lemma {:induction false} CloseEvolves(c: Connection)
    requires Valid(c)
    ensures Evolves(c, Step(c, CloseConnection).next)
  {
  }

  lemma {:induction false} OpenAckEvolves(c: Connection, ack: OpenAck)
    requires Valid(c)
    ensures Evolves(c, StepOpenAck(c, ack).next)
  {
  }

  lemma {:induction false} CloseAckEvolves(c: Connection, h: CommonHeader, ack: SessionCloseAck)
    requires Valid(c)
    ensures Evolves(c, StepCloseAck(c, h, ack).next)
  {
  }

  lemma {:induction false} StepEvolves(c: Connection, e: Event)
    requires Valid(c)
    ensures Evolves(c, Step(c, e).next)
  {
    match e {
      case CloseConnection => CloseEvolves(c);
      case ApplyOpenAck(ack) => OpenAckEvolves(c, ack);
      case ApplyCloseAck(h, ack) => CloseAckEvolves(c, h, ack);
      case BeginClose(_, _) =>
    }
  }

  lemma {:induction false} RunFromEvolves(c: Connection, es: seq<Event>)
    requires Valid(c)
    ensures Valid(RunFrom(c, es)) && Evolves(c, RunFrom(c, es))
  {
    if es != [] {
      RunFromEvolves(c, es[..|es| - 1]);
      StepValid(RunFrom(c, es[..|es| - 1]), es[|es| - 1]);
      StepEvolves(RunFrom(c, es[..|es| - 1]), es[|es| - 1]);
    }
  }

  /** Every continuation of every run evolves from it. */
  lemma {:induction false} RunEvolves(es: seq<Event>, more: seq<Event>)
    ensures Evolves(Run(es), Run(es + more))
  {
    RunValid(es);
    RunFromEvolves(Run(es), more);
    RunFromConcat(NewConnection(), es, more);
  }

  // ---------------------------------------------------------------- isolation of sessions

  function Target(e: Event): u32
    requires !e.CloseConnection?
  {
    match e
    case ApplyOpenAck(ack) => ack.sessionId
    case BeginClose(h, _) => h.sessionId
    case ApplyCloseAck(h, _) => h.sessionId
  }

  predicate Concerns(e: Event, s: u32) { e.CloseConnection? || Target(e) == s }

  /** The sub-run that concerns one session: its own events and the connection closes. */
  function OnlyFor(es: seq<Event>, s: u32): seq<Event> {
    if es == [] then []
    else
      var n := |es| - 1;
      OnlyFor(es[..n], s) + if Concerns(es[n], s) then [es[n]] else []
  }

  /** Two connections look the same from session `s`. */
  ghost predicate AgreeOn(c: Connection, d: Connection, s: u32) {
    && c.state == d.state
    && (s in c.sessions <==> s in d.sessions) && (s in c.sessions ==> c.sessions[s] == d.sessions[s])
    && (s in c.established <==> s in d.established) && (s in c.established ==> c.established[s] == d.established[s])
  }

  /** An event for another session is invisible from `s`. */
  lemma {:induction false} ForeignStep(c: Connection, e: Event, s: u32)
    requires !Concerns(e, s)
    ensures AgreeOn(Step(c, e).next, c, s)
  {
  }

  /** An event that concerns `s` has the same result and effect on connections that agree on `s`. */
  lemma {:induction false} OwnStep(c: Connection, d: Connection, e: Event, s: u32)
    requires Concerns(e, s) && AgreeOn(c, d, s)
    ensures Step(c, e).result == Step(d, e).result
    ensures AgreeOn(Step(c, e).next, Step(d, e).next, s)
  {
  }

  /** The record, presence and established state of a session after a run are those after the
      sub-run that concerns it, whatever the other sessions did in between. */
  lemma {:induction false} Isolation(es: seq<Event>, s: u32)
    ensures AgreeOn(Run(es), Run(OnlyFor(es, s)), s)
  {
    if es != [] {
      var n := |es| - 1;
      var own := OnlyFor(es[..n], s);
      Isolation(es[..n], s);
      if Concerns(es[n], s) {
        assert (own + [es[n]])[..|own|] == own;
        OwnStep(Run(es[..n]), Run(own), es[n], s);
      } else {
        assert OnlyFor(es, s) == own;
        ForeignStep(Run(es[..n]), es[n], s);
      }
    }
  }

  /** A call for session `s` gets the same answer after a run as after the sub-run that concerns `s`. */
  lemma {:induction false} IsolatedAnswers(es: seq<Event>, e: Event, s: u32)
    requires Concerns(e, s)
    ensures Step(Run(es), e).result == Step(Run(OnlyFor(es, s)), e).result
  {
    Isolation(es, s);
    OwnStep(Run(es), Run(OnlyFor(es, s)), e, s);
  }

  /** Runs with the same per-session event streams end in the same connection, however the
      streams are interleaved. */
  lemma {:induction false} InterleavingIrrelevant(es: seq<Event>, fs: seq<Event>)
    requires forall s: u32 :: OnlyFor(es, s) == OnlyFor(fs, s)
    ensures Run(es) == Run(fs)
  {
    forall s: u32 ensures AgreeOn(Run(es), Run(fs), s) {
      Isolation(es, s);
      Isolation(fs, s);
    }
    var c, d := Run(es), Run(fs);
    assert AgreeOn(c, d, 0);
    assert c.sessions == d.sessions by {
      forall s: u32
        ensures (s in c.sessions <==> s in d.sessions) && (s in c.sessions ==> c.sessions[s] == d.sessions[s])
      {
        assert AgreeOn(c, d, s);
      }
    }
    assert c.established == d.established by {
      forall s: u32
        ensures s in c.established <==> s in d.established
        ensures s in c.established ==> c.established[s] == d.established[s]
      {
        assert AgreeOn(c, d, s);
      }
    }
  }

  // ---------------------------------------------------------------- flow control decided by the history alone

  /** A successful open ack for `s`, judged by the message alone. */
  predicate Opens(e: Event, s: u32) {
    e.ApplyOpenAck? && e.ack.sessionId == s && (e.ack.status.StatusOpened? || e.ack.status.StatusResumed?)
  }

  /** A close ack that reports `s` closed, judged by the message alone. */
  predicate FinallyCloses(e: Event, s: u32) {
    && e.ApplyCloseAck? && e.header.messageType == SESSION_CLOSE_ACK && e.header.sessionId == s
    && e.closeAck.status.StatusClosed?
  }

  /** Index `i` holds the first open ack for `s` in the run. */
  ghost predicate FirstOpen(es: seq<Event>, s: u32, i: nat) {
    i < |es| && Opens(es[i], s) && forall k | 0 <= k < i :: !Opens(es[k], s)
  }

  ghost predicate NeverClosed(es: seq<Event>) { forall k | 0 <= k < |es| :: !es[k].CloseConnection? }

  ghost predicate NoCloseAfter(es: seq<Event>, s: u32, i: nat) {
    forall k | i < k < |es| :: !FinallyCloses(es[k], s)
  }

  /** Read off the messages alone: the connection was not closed, `s` was opened, and no closed
      ack for `s` came after its first open ack. */
  ghost predicate LiveInHistory(es: seq<Event>, s: u32) {
    s != 0 && NeverClosed(es) && exists i: nat :: FirstOpen(es, s, i) && NoCloseAfter(es, s, i)
  }

  predicate Live(c: Connection, s: u32) {
    c.state.ConnectionOpen? && s in c.sessions && c.sessions[s].state.AcceptsSessionScopedMessages()
  }

  lemma {:induction false} ConnectionHistory(es: seq<Event>)
    ensures Run(es).state.ConnectionOpen? <==> NeverClosed(es)
  {
    if es != [] {
      var n := |es| - 1;
      ConnectionHistory(es[..n]);
      RunValid(es[..n]);
      assert forall k | 0 <= k < n :: es[..n][k] == es[k];
    }
  }

  /** On an open connection a session is installed by its first open ack, which also fixes its
      established state, and is not closed exactly while no closed ack followed. */
  lemma {:induction false} SessionHistory(es: seq<Event>, s: u32)
    requires s != 0 && NeverClosed(es)
    ensures var c := Run(es);
      && (s !in c.sessions <==> forall k | 0 <= k < |es| :: !Opens(es[k], s))
      && forall i: nat | FirstOpen(es, s, i) ::
           && s in c.sessions && s in c.established && c.established[s] == Installed(es[i].ack).state
           && SameTerms(c.sessions[s], Installed(es[i].ack))
           && (!c.sessions[s].state.Closed? <==> NoCloseAfter(es, s, i))
  {
    if es != [] {
      var n := |es| - 1;
      var c, e := Run(es[..n]), es[n];
      assert forall k | 0 <= k < n :: es[..n][k] == es[k];
      SessionHistory(es[..n], s);
      ConnectionHistory(es[..n]);
      RunValid(es[..n]);
      var d := Run(es);
      assert s in c.sessions || Opens(e, s) <==> s in d.sessions;
      forall i: nat | FirstOpen(es, s, i)
        ensures s in d.sessions && s in d.established && d.established[s] == Installed(es[i].ack).state
        ensures SameTerms(d.sessions[s], Installed(es[i].ack))
        ensures !d.sessions[s].state.Closed? <==> NoCloseAfter(es, s, i)
      {
        if i < n {
          assert FirstOpen(es[..n], s, i);
          assert NoCloseAfter(es, s, i) <==> NoCloseAfter(es[..n], s, i) && !FinallyCloses(e, s);
        } else {
          assert s !in c.sessions;
        }
      }
    }
  }

  lemma {:induction false} LeastOpen(es: seq<Event>, s: u32, k: nat) returns (i: nat)
    requires k < |es| && Opens(es[k], s)
    ensures FirstOpen(es, s, i)
  {
    i := 0;
    while !Opens(es[i], s)
      decreases k - i
      invariant i <= k && forall j | 0 <= j < i :: !Opens(es[j], s)
    {
      i := i + 1;
    }
  }

  lemma {:induction false} LiveExactlyInHistory(es: seq<Event>, s: u32)
    ensures Live(Run(es), s) <==> LiveInHistory(es, s)
  {
    ConnectionHistory(es);
    RunValid(es);
    if s != 0 && NeverClosed(es) {
      SessionHistory(es, s);
      if s in Run(es).sessions {
        var k :| 0 <= k < |es| && Opens(es[k], s);
        var i := LeastOpen(es, s, k);
        assert FirstOpen(es, s, i);
      }
    }
  }

  /** A session- or operation-scope FLOW_UPDATE with valid routing is accepted after a run exactly
      when the messages of the run leave its session live. */
  lemma {:induction false} FlowUpdateByHistory(es: seq<Event>, h: CommonHeader, m: FlowUpdate)
    requires !m.scope.ConnectionScope?
    ensures FlowUpdateResult(Run(es), h, m).Ok? <==> ValidateRouting(h, m).Ok? && LiveInHistory(es, h.sessionId)
  {
    LiveExactlyInHistory(es, h.sessionId);
  }

  /** Once a session is installed, or the connection closed, a refused flow update is refused in every
      continuation of the run. */
  lemma {:induction false} FlowUpdateRefusalIsFinal(es: seq<Event>, more: seq<Event>, h: CommonHeader, m: FlowUpdate)
    requires !m.scope.ConnectionScope?
    requires h.sessionId in Run(es).sessions || Run(es).state.ConnectionClosed?
    requires FlowUpdateResult(Run(es), h, m).Err?
    ensures FlowUpdateResult(Run(es + more), h, m).Err?
  {
    RunValid(es);
    RunEvolves(es, more);
  }
}

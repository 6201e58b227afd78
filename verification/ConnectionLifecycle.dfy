/** The connection object: its fields are updated in place by the lifecycle calls, and each call
    is proved to be one `Step` of the lifecycle state machine. */
module ConnectionObject {
  import opened Wire
  import opened Header
  import opened Flow
  import L = Lifecycle

  class ConnectionLifecycle {
    var state: L.ConnectionState
    var sessions: map<u32, L.Session>
    var established: map<u32, L.SessionState>

    function Value(): L.Connection
      reads this
    {
      L.Connection(state, sessions, established)
    }

    constructor ()
      ensures Value() == L.NewConnection()
    {
      state, sessions, established := L.ConnectionOpen, map[], map[];
    }

    method Close() returns (r: Result<(), NnrpError>)
      modifies this
      ensures L.Outcome(Value(), r) == L.Step(old(Value()), L.CloseConnection)
    {
      if state.ConnectionClosed? {
        return Err(ConnectionAlreadyClosed);
      }
      state := L.ConnectionClosed;
      ghost var before := sessions;
      var pending := sessions.Keys;
      while pending != {}
        invariant pending <= before.Keys == sessions.Keys
        invariant forall s | s in before ::
          sessions[s] == if s in pending then before[s] else before[s].(state := L.Closed)
        invariant state == L.ConnectionClosed && established == old(established)
        decreases pending
      {
        var s :| s in pending;
        sessions := sessions[s := sessions[s].(state := L.Closed)];
        pending := pending - {s};
      }
      assert sessions == L.CloseAll(before);
      r := Ok(());
    }

    method RequireOpen() returns (r: Result<(), NnrpError>)
      ensures r == if state.ConnectionOpen? then Ok(()) else Err(ConnectionNotOpen)
    {
      match state {
        case ConnectionOpen => r := Ok(());
        case ConnectionClosing => r := Err(ConnectionNotOpen);
        case ConnectionClosed => r := Err(ConnectionNotOpen);
      }
    }

    method ApplyOpenAck(ack: L.OpenAck) returns (r: Result<(), NnrpError>)
      modifies this
      ensures L.Outcome(Value(), r) == L.Step(old(Value()), L.ApplyOpenAck(ack))
    {
      r := RequireOpen();
      if r.Err? { return; }
      match ack.status {
        case StatusOpened | StatusResumed =>
          if ack.sessionId == 0 {
            return Err(InvalidProtocolCombination(OpenAckNeedsSession));
          }
          if ack.sessionId in sessions {
            return Err(SessionAlreadyExists(ack.sessionId));
          }
          var installed := if ack.status.StatusOpened? then L.Open else L.Resumed;
          established := established[ack.sessionId := installed];
          sessions := sessions[ack.sessionId := L.Session(
            ack.sessionId, installed, ack.acceptedProfileId, ack.acceptedPriorityClass, ack.schemaId,
            ack.schemaVersion, ack.maxInFlightOperations, ack.routeScopeId, 0, ack.sessionErrorCode)];
        case StatusRejected | StatusRetryLater =>
          if ack.sessionId != 0 {
            return Err(InvalidProtocolCombination(RejectedAckCarriesSession));
          }
      }
    }

    method BeginSessionClose(h: CommonHeader, close: L.SessionClose) returns (r: Result<(), NnrpError>)
      modifies this
      ensures L.Outcome(Value(), r) == L.Step(old(Value()), L.BeginClose(h, close))
    {
      r := RequireOpen();
      if r.Err? { return; }
      if h.messageType != SESSION_CLOSE {
        return Err(InvalidProtocolCombination(NotSessionClose));
      }
      if h.sessionId == 0 {
        return Err(InvalidProtocolCombination(SessionCloseZeroSession));
      }
      if h.sessionId !in sessions {
        return Err(UnknownSession(h.sessionId));
      }
      var session := sessions[h.sessionId];
      if !session.state.AcceptsNewOperations() {
        return Err(SessionNotOpen(h.sessionId));
      }
      session := session.(state := L.Closing);
      session := session.(lastOperationId := close.lastOperationId);
      session := session.(errorCode := close.sessionErrorCode);
      sessions := sessions[h.sessionId := session];
    }

    method ApplyCloseAck(h: CommonHeader, ack: L.SessionCloseAck) returns (r: Result<(), NnrpError>)
      modifies this
      ensures L.Outcome(Value(), r) == L.Step(old(Value()), L.ApplyCloseAck(h, ack))
    {
      r := RequireOpen();
      if r.Err? { return; }
      if h.messageType != SESSION_CLOSE_ACK {
        return Err(InvalidProtocolCombination(NotSessionCloseAck));
      }
      if h.sessionId == 0 {
        return Err(InvalidProtocolCombination(SessionCloseAckZeroSession));
      }
      if h.sessionId !in sessions {
        return Err(UnknownSession(h.sessionId));
      }
      var session := sessions[h.sessionId];
      if session.state == L.Closed {
        return Err(SessionNotOpen(h.sessionId));
      }
      match ack.status {
        case Acknowledged => session := session.(state := L.Closing);
        case StatusDraining => session := session.(state := L.Draining);
        case StatusClosed => session := session.(state := L.Closed);
        case CloseRejected =>
          if h.sessionId !in established {
            return Err(UnknownSession(h.sessionId));
          }
          session := session.(state := established[h.sessionId]);
      }
      session := session.(lastOperationId := ack.lastOperationId);
      session := session.(errorCode := ack.sessionErrorCode);
      sessions := sessions[h.sessionId := session];
    }

    method ValidateFlowUpdate(h: CommonHeader, m: FlowUpdate) returns (r: Result<(), NnrpError>)
      ensures r == L.FlowUpdateResult(Value(), h, m)
    {
      r := RequireOpen();
      if r.Err? { return; }
      r := ValidateRouting(h, m);
      if r.Err? { return; }
      if m.scope.ConnectionScope? { return; }
      if h.sessionId !in sessions || !sessions[h.sessionId].state.AcceptsSessionScopedMessages() {
        r := Err(UnknownSession(h.sessionId));
      }
    }
  }

  /** Replaying any sequence of calls on a new connection object gives the connection of the run. */
  method Replay(es: seq<L.Event>) returns (c: ConnectionLifecycle)
    ensures fresh(c) && c.Value() == L.Run(es)
    ensures L.Valid(c.Value())
  {
    c := new ConnectionLifecycle();
    for i := 0 to |es|
      invariant fresh(c) && c.Value() == L.Run(es[..i])
    {
      match es[i] {
        case CloseConnection => var _ := c.Close();
        case ApplyOpenAck(ack) => var _ := c.ApplyOpenAck(ack);
        case BeginClose(h, close) => var _ := c.BeginSessionClose(h, close);
        case ApplyCloseAck(h, ack) => var _ := c.ApplyCloseAck(h, ack);
      }
      assert es[..i + 1][..i] == es[..i];
    }
    assert es[..|es|] == es;
    L.RunValid(es);
  }
}

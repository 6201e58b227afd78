/** What the messages of a run alone say about every session and every answer.

    Nothing here is stated through the transition functions: records, established states and answers
    are read off the events, field by field. */
module LifecycleHistory {
  import opened Wire
  import opened Bits
  import opened Header
  import opened Flow
  import opened Lifecycle

  // ---------------------------------------------------------------- the message that decides a session's state

  predicate BeginsClose(e: Event, s: u32) {
    e.BeginClose? && e.header.messageType == 0x09 && e.header.sessionId == s
  }

  predicate AnswersClose(e: Event, s: u32) {
    e.ApplyCloseAck? && e.header.messageType == 0x0a && e.header.sessionId == s
  }

  predicate Rejects(e: Event) { e.ApplyCloseAck? && e.closeAck.status.CloseRejected? }

  predicate Finishes(e: Event) { e.ApplyCloseAck? && e.closeAck.status.StatusClosed? }

  /** No close is under way: there was no close message, or the last one was a rejection. */
  predicate Undisturbed(last: Option<Event>) { last.None? || Rejects(last.value) }

  ghost predicate Opened(es: seq<Event>, s: u32) { exists k :: 0 <= k < |es| && Opens(es[k], s) }

  /** The last close message of the run that counts for `s`: one that comes after `s` was opened and not
      after it was finished, and that is a close ack, or a begin-close while no close is under way. */
  ghost function LastClose(es: seq<Event>, s: u32): Option<Event> {
    if es == [] then None
    else
      var n := |es| - 1;
      var last := LastClose(es[..n], s);
      if !Opened(es[..n], s) || (last.Some? && Finishes(last.value)) then last
      else if AnswersClose(es[n], s) || (BeginsClose(es[n], s) && Undisturbed(last)) then Some(es[n])
      else last
  }

  /** The state a session has by its open ack and its last close message. */
  function StateBy(ack: OpenAck, last: Option<Event>): SessionState {
    if Undisturbed(last) then if ack.status.StatusOpened? then Open else Resumed
    else if last.value.ApplyCloseAck? && last.value.closeAck.status.StatusDraining? then Draining
    else if Finishes(last.value) then Closed
    else Closing
  }

  function LastOperationBy(last: Option<Event>): u64 {
    if last.None? then 0
    else if last.value.BeginClose? then last.value.close.lastOperationId
    else if last.value.ApplyCloseAck? then last.value.closeAck.lastOperationId
    else 0
  }

  function ErrorBy(ack: OpenAck, last: Option<Event>): u32 {
    if last.None? then ack.sessionErrorCode
    else if last.value.BeginClose? then last.value.close.sessionErrorCode
    else if last.value.ApplyCloseAck? then last.value.closeAck.sessionErrorCode
    else ack.sessionErrorCode
  }

  /** The record a session has: the terms of its open ack and what its last close message says. */
  ghost predicate RecordBy(r: Session, s: u32, ack: OpenAck, last: Option<Event>) {
    && r.id == s && r.profileId == ack.acceptedProfileId && r.priorityClass == ack.acceptedPriorityClass
    && r.schemaId == ack.schemaId && r.schemaVersion == ack.schemaVersion
    && r.maxInFlightOperations == ack.maxInFlightOperations && r.routeScopeId == ack.routeScopeId
    && r.state == StateBy(ack, last)
    && r.lastOperationId == LastOperationBy(last) && r.errorCode == ErrorBy(ack, last)
  }

  ghost predicate Recorded(c: Connection, s: u32, ack: OpenAck, last: Option<Event>) {
    && s in c.sessions && RecordBy(c.sessions[s], s, ack, last)
    && s in c.established && c.established[s] == StateBy(ack, None)
  }

  lemma {:induction false} LastCloseKind(es: seq<Event>, s: u32)
    ensures var last := LastClose(es, s); last.Some? ==> last.value.BeginClose? || last.value.ApplyCloseAck?
    ensures !Opened(es, s) ==> LastClose(es, s).None?
  {
    if es != [] {
      var n := |es| - 1;
      LastCloseKind(es[..n], s);
      if Opened(es[..n], s) {
        var k :| 0 <= k < n && Opens(es[..n][k], s);
        assert Opens(es[k], s);
      }
    }
  }

  /** One more event on a session that is recorded. */
  lemma {:induction false} RecordedStep(c: Connection, e: Event, s: u32, ack: OpenAck, last: Option<Event>)
    requires c.state.ConnectionOpen? && s != 0 && !e.CloseConnection? && Recorded(c, s, ack, last)
    requires last.Some? ==> last.value.BeginClose? || last.value.ApplyCloseAck?
    ensures var now :=
        if last.Some? && Finishes(last.value) then last
        else if AnswersClose(e, s) || (BeginsClose(e, s) && Undisturbed(last)) then Some(e)
        else last;
      Recorded(Step(c, e).next, s, ack, now)
  {
  }

  lemma {:induction false} InstallStep(c: Connection, e: Event, s: u32)
    requires c.state.ConnectionOpen? && s != 0 && s !in c.sessions && Opens(e, s)
    ensures Recorded(Step(c, e).next, s, e.ack, None)
  {
  }

  /** On an open connection the whole record of a session is decided by its first open ack and its last
      close message. */
  lemma {:induction false} RecordByHistory(es: seq<Event>, s: u32, i: nat)
    requires s != 0 && NeverClosed(es) && FirstOpen(es, s, i)
    ensures Recorded(Run(es), s, es[i].ack, LastClose(es, s))
  {
    var n := |es| - 1;
    var before := es[..n];
    assert forall k | 0 <= k < n :: before[k] == es[k];
    ConnectionHistory(before);
    LastCloseKind(before, s);
    if i < n {
      assert FirstOpen(before, s, i);
      RecordByHistory(before, s, i);
      assert Opened(before, s);
      RecordedStep(Run(before), es[n], s, es[i].ack, LastClose(before, s));
    } else {
      SessionHistory(before, s);
      assert !Opened(before, s);
      InstallStep(Run(before), es[n], s);
    }
  }

  /** Closing the connection closes every session and changes nothing else about it, for good. */
  lemma {:induction false} ClosedByHistory(es: seq<Event>, j: nat)
    requires j < |es| && es[j].CloseConnection? && NeverClosed(es[..j])
    ensures var c, d := Run(es[..j]), Run(es);
      && d.state.ConnectionClosed? && d.established == c.established && d.sessions.Keys == c.sessions.Keys
      && forall s | s in c.sessions :: d.sessions[s] == c.sessions[s].(state := Closed)
  {
    var n := |es| - 1;
    assert es[..n + 1] == es;
    if j < n {
      assert es[..n][..j] == es[..j];
      ClosedByHistory(es[..n], j);
    } else {
      ConnectionHistory(es[..j]);
    }
  }

  // ---------------------------------------------------------------- the answers

  lemma {:induction false} SessionsByHistory(es: seq<Event>, s: u32)
    requires s != 0 && NeverClosed(es)
    ensures s in Run(es).sessions <==> Opened(es, s)
    ensures Opened(es, s) ==> exists i: nat :: FirstOpen(es, s, i)
  {
    SessionHistory(es, s);
    if Opened(es, s) {
      var k :| 0 <= k < |es| && Opens(es[k], s);
      var i := LeastOpen(es, s, k);
    }
  }

  /** An opened session is in the state of its open ack exactly when no close is under way, and closed
      exactly when its last close message finished it. */
  lemma {:induction false} StateByHistory(es: seq<Event>, s: u32)
    requires s != 0 && NeverClosed(es) && Opened(es, s)
    ensures s in Run(es).sessions && s in Run(es).established
    ensures var state, last := Run(es).sessions[s].state, LastClose(es, s);
      && (state.Open? || state.Resumed? <==> Undisturbed(last))
      && (state.Closed? <==> last.Some? && Finishes(last.value))
  {
    SessionsByHistory(es, s);
    var i: nat :| FirstOpen(es, s, i);
    RecordByHistory(es, s, i);
  }

  /** The answer to an open ack. */
  lemma {:induction false} OpenAckAnswer(es: seq<Event>, ack: OpenAck)
    ensures Step(Run(es), ApplyOpenAck(ack)).result ==
      if !NeverClosed(es) then Err(ConnectionNotOpen)
      else if ack.status.StatusRejected? || ack.status.StatusRetryLater? then
        if ack.sessionId == 0 then Ok(()) else Err(InvalidProtocolCombination(RejectedAckCarriesSession))
      else if ack.sessionId == 0 then Err(InvalidProtocolCombination(OpenAckNeedsSession))
      else if Opened(es, ack.sessionId) then Err(SessionAlreadyExists(ack.sessionId))
      else Ok(())
  {
    ConnectionHistory(es);
    if NeverClosed(es) && ack.sessionId != 0 { SessionsByHistory(es, ack.sessionId); }
  }

  /** The answer to a begin-close: accepted exactly for an opened session with no close under way. */
  lemma {:induction false} BeginCloseAnswer(es: seq<Event>, h: CommonHeader, close: SessionClose)
    ensures Step(Run(es), BeginClose(h, close)).result ==
      if !NeverClosed(es) then Err(ConnectionNotOpen)
      else if h.messageType != 0x09 then Err(InvalidProtocolCombination(NotSessionClose))
      else if h.sessionId == 0 then Err(InvalidProtocolCombination(SessionCloseZeroSession))
      else if !Opened(es, h.sessionId) then Err(UnknownSession(h.sessionId))
      else if !Undisturbed(LastClose(es, h.sessionId)) then Err(SessionNotOpen(h.sessionId))
      else Ok(())
  {
    ConnectionHistory(es);
    if NeverClosed(es) && h.sessionId != 0 {
      SessionsByHistory(es, h.sessionId);
      if Opened(es, h.sessionId) { StateByHistory(es, h.sessionId); }
    }
  }

  /** The answer to a close ack: accepted exactly for an opened session that is not finished. */
  lemma {:induction false} CloseAckAnswer(es: seq<Event>, h: CommonHeader, ack: SessionCloseAck)
    ensures Step(Run(es), ApplyCloseAck(h, ack)).result ==
      if !NeverClosed(es) then Err(ConnectionNotOpen)
      else if h.messageType != 0x0a then Err(InvalidProtocolCombination(NotSessionCloseAck))
      else if h.sessionId == 0 then Err(InvalidProtocolCombination(SessionCloseAckZeroSession))
      else if !Opened(es, h.sessionId) then Err(UnknownSession(h.sessionId))
      else if LastClose(es, h.sessionId).Some? && Finishes(LastClose(es, h.sessionId).value) then
        Err(SessionNotOpen(h.sessionId))
      else Ok(())
  {
    ConnectionHistory(es);
    if NeverClosed(es) && h.sessionId != 0 {
      SessionsByHistory(es, h.sessionId);
      if Opened(es, h.sessionId) { StateByHistory(es, h.sessionId); }
    }
  }

  /** A connection can be closed once. */
  lemma {:induction false} CloseAnswer(es: seq<Event>)
    ensures Step(Run(es), CloseConnection).result == if NeverClosed(es) then Ok(()) else Err(ConnectionAlreadyClosed)
  {
    ConnectionHistory(es);
    RunValid(es);
  }

  // ---------------------------------------------------------------- flow updates

  /** The fields a FLOW_UPDATE of each scope may carry. */
  predicate RoutingAllowed(h: CommonHeader, m: FlowUpdate) {
    && h.messageType == 0x17
    && (m.retryAfterMs != 0 ==> m.flowFlags / 2 % 2 == 1)
    && match m.scope
       case ConnectionScope => h.sessionId == 0 && m.sessionCredit == 0 && m.operationCredit == 0 && m.operationId == 0
       case SessionScope => h.sessionId != 0 && m.connectionCredit == 0 && m.operationCredit == 0 && m.operationId == 0
       case OperationScope => h.sessionId != 0 && m.operationId != 0
  }

  lemma {:induction false} RoutingIff(h: CommonHeader, m: FlowUpdate)
    ensures ValidateRouting(h, m).Ok? <==> RoutingAllowed(h, m)
  {
    assert Bit(m.flowFlags, 1) == Bit(m.flowFlags / 2, 0);
  }

  /** Every flow update is decided by its own fields and the messages of the run: connection scope needs
      an open connection, the others a live session on it. */
  lemma {:induction false} FlowUpdateAnswer(es: seq<Event>, h: CommonHeader, m: FlowUpdate)
    ensures FlowUpdateResult(Run(es), h, m).Ok? <==>
      RoutingAllowed(h, m) && if m.scope.ConnectionScope? then NeverClosed(es) else LiveInHistory(es, h.sessionId)
  {
    RoutingIff(h, m);
    ConnectionHistory(es);
    if !m.scope.ConnectionScope? { FlowUpdateByHistory(es, h, m); }
  }

  /** What a refused flow update is refused for. */
  lemma {:induction false} FlowUpdateRefusal(es: seq<Event>, h: CommonHeader, m: FlowUpdate)
    requires FlowUpdateResult(Run(es), h, m).Err?
    ensures var e := FlowUpdateResult(Run(es), h, m).error;
      && (e == ConnectionNotOpen <==> !NeverClosed(es))
      && (NeverClosed(es) && RoutingAllowed(h, m) ==> e == UnknownSession(h.sessionId))
      && (NeverClosed(es) && !RoutingAllowed(h, m) ==> e.InvalidProtocolCombination?)
  {
    RoutingIff(h, m);
    ConnectionHistory(es);
  }
}

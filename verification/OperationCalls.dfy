/** What each registry call answers and what it does to the records, and what the calls of a run say
    about the schedule of every operation. */
module OperationCalls {
  import opened Wire
  import opened Bits
  import Header
  import opened Order
  import opened OperationStates
  import opened Operations

  /** `next` is `ops` with the record of `id` replaced by `r`, and nothing else. */
  ghost predicate OnlySet(ops: Registry, next: Registry, id: u64, r: Record) {
    next.Keys == ops.Keys + {id} && next[id] == r && forall x | x in ops && x != id :: next[x] == ops[x]
  }

  /** The operation can still change. */
  predicate Alive(s: OperationState) { s == Accepted || s == Running || s == Partial || s == WaitingTool }

  // ---------------------------------------------------------------- one call

  /** Why a descriptor is refused, in the order of the tests. */
  lemma {:induction false} RegisterAnswer(ops: Registry, d: Descriptor)
    ensures Step(ops, Register(d)).result ==
      if d.sessionId == 0 then Err(InvalidOperationRelationship(ZeroSession))
      else if d.operationId == 0 then Err(InvalidOperationRelationship(ZeroOperation))
      else if d.parent == Some(d.operationId) then Err(InvalidOperationRelationship(SelfParent))
      else if d.group == Some(0) then Err(InvalidOperationRelationship(ZeroGroup))
      else if d.operationId in ops then Err(OperationAlreadyExists(d.operationId))
      else if d.parent.Some? && d.parent.value !in ops then Err(UnknownOperation(d.parent.value))
      else if d.parent.Some? && ops[d.parent.value].descriptor.sessionId != d.sessionId then
        Err(InvalidOperationRelationship(ForeignParent))
      else Ok(Done)
  {
  }

  /** An accepted registration adds one Accepted operation with an empty schedule. */
  lemma {:induction false} RegisterEffect(ops: Registry, d: Descriptor)
    requires Step(ops, Register(d)).result.Ok?
    ensures OnlySet(ops, Step(ops, Register(d)).next, d.operationId, Record(d, Accepted, Schedule(0, 0, 0, 0, 0, 0)))
  {
  }

  /** A transition is accepted exactly along the graph, and then reaches the requested state. */
  lemma {:induction false} TransitionCall(ops: Registry, id: u64, s: OperationState)
    ensures var o := Step(ops, Transition(id, s));
      && (o.result.Ok? <==> id in ops && MayEnter(s, ops[id].state))
      && (o.result.Ok? ==> o.result == Ok(Done) && OnlySet(ops, o.next, id, ops[id].(state := s)))
      && (id !in ops ==> o.result == Err(UnknownOperation(id)))
      && (o.result.Err? && id in ops ==> o.result == Err(InvalidOperationTransition(ops[id].state.Code(), s.Code())))
  {
    if id in ops { TransitionGraph(ops[id].state, s); }
  }

  /** An abort fails exactly the operations that can still change. */
  lemma {:induction false} AbortCall(ops: Registry, id: u64)
    ensures var o := Step(ops, Abort(id));
      && (o.result.Ok? <==> id in ops && Alive(ops[id].state))
      && (o.result.Ok? ==> o.result == Ok(Done) && OnlySet(ops, o.next, id, ops[id].(state := Failed)))
      && (id !in ops ==> o.result == Err(UnknownOperation(id)))
  {
    if id in ops { TransitionGraph(ops[id].state, Failed); }
  }

  /** A completion is accepted exactly from Accepted, Running or Partial, and completes the operation. */
  lemma {:induction false} CompleteCall(ops: Registry, id: u64)
    ensures var o := Step(ops, Complete(id));
      && (o.result.Ok? <==>
            id in ops && (ops[id].state == Accepted || ops[id].state == Running || ops[id].state == Partial))
      && (o.result.Ok? ==> o.result == Ok(Done) && OnlySet(ops, o.next, id, ops[id].(state := Completed)))
      && (id !in ops ==> o.result == Err(UnknownOperation(id)))
  {
    if id in ops { TransitionGraph(ops[id].state, Completed); }
  }

  /** An expiry supersedes exactly a live operation whose schedule asks to discard it and whose time has
      come, and reports the schedule; otherwise it changes and reports nothing. */
  lemma {:induction false} ExpireCall(ops: Registry, id: u64, nowMs: u64)
    ensures var o := Step(ops, ExpireIfStale(id, nowMs));
      if id !in ops then o == Outcome(ops, Err(UnknownOperation(id)))
      else
        var r := ops[id];
        if Alive(r.state) && r.schedule.flags % 2 == 1 && 0 < r.schedule.expireAtMs <= nowMs then
          o.result == Ok(Expired(Some(r.schedule))) && OnlySet(ops, o.next, id, r.(state := Superseded))
        else o == Outcome(ops, Ok(Expired(None)))
  {
  }

  /** The schedule after a message of each type. */
  function Updated(s: Schedule, messageType: int, m: Scheduling): Schedule {
    Schedule(
      if messageType == 0x32 then m.priorityClass else s.priorityClass,
      if messageType == 0x32 then m.priorityDelta else s.priorityDelta,
      if messageType == 0x33 then m.deadlineMs else s.deadlineMs,
      if messageType == 0x34 then m.deadlineMs else s.expireAtMs,
      m.controlSequence,
      if messageType == 0x34 then m.flags else s.flags)
  }

  /** A scheduling update reaches a live operation of its session; each message type sets its own fields
      and the sequence number, and any other type sets the sequence number and is refused. */
  lemma {:induction false} ScheduleCall(ops: Registry, sessionId: u32, messageType: Header.MessageType, m: Scheduling)
    ensures var o := Step(ops, ApplyScheduling(sessionId, messageType, m));
      var id := m.operationId;
      if id !in ops then o == Outcome(ops, Err(UnknownOperation(id)))
      else if ops[id].descriptor.sessionId != sessionId then
        o == Outcome(ops, Err(InvalidOperationRelationship(ForeignSchedule)))
      else if !Alive(ops[id].state) then
        o == Outcome(ops, Err(InvalidOperationTransition(ops[id].state.Code(), ops[id].state.Code())))
      else
        var schedule := Updated(ops[id].schedule, messageType, m);
        && OnlySet(ops, o.next, id, ops[id].(schedule := schedule))
        && o.result == if 0x32 <= messageType <= 0x34 then Ok(Scheduled(schedule))
                       else Err(InvalidProtocolCombination(NotScheduling))
  {
  }

  /** A cancel is refused for an unknown operation, a foreign session or a missing group. */
  lemma {:induction false} CancelAnswer(ops: Registry, q: CancelRequest)
    ensures var result := Step(ops, Cancel(q)).result;
      if q.operationId !in ops then result == Err(UnknownOperation(q.operationId))
      else if ops[q.operationId].descriptor.sessionId != q.sessionId then
        result == Err(InvalidOperationRelationship(ForeignCancel))
      else if q.scope == Group && ops[q.operationId].descriptor.group == None then
        result == Err(InvalidOperationRelationship(NoGroup))
      else result.Ok?
  {
  }

  /** `x` is reached from `root` by parent links. */
  ghost predicate Below(ops: Registry, x: u64, root: u64) {
    exists path: seq<u64> :: ParentPath(ops, path) && path[0] == x && path[|path| - 1] == root
  }

  predicate ParentLink(ops: Registry, path: seq<u64>, i: nat)
    requires i + 1 < |path|
  {
    path[i] in ops && ops[path[i]].descriptor.parent == Some(path[i + 1])
  }

  ghost predicate ParentPath(ops: Registry, path: seq<u64>) {
    path != [] && path[|path| - 1] in ops && forall i | 0 <= i < |path| - 1 :: ParentLink(ops, path, i)
  }

  lemma {:induction false} UpIsPath(ops: Registry, x: u64, n: nat, root: u64) returns (path: seq<u64>)
    requires Up(ops, x, n) == Some(root)
    ensures ParentPath(ops, path) && path[0] == x && path[|path| - 1] == root
    decreases n
  {
    path := [x];
    if n > 0 {
      var rest := UpIsPath(ops, ops[x].descriptor.parent.value, n - 1, root);
      path := [x] + rest;
      forall i | 0 <= i < |path| - 1 ensures ParentLink(ops, path, i) {
        if i > 0 { assert ParentLink(ops, rest, i - 1); }
      }
    }
  }

  lemma {:induction false} PathIsUp(ops: Registry, path: seq<u64>)
    requires ParentPath(ops, path)
    ensures Up(ops, path[0], |path| - 1) == Some(path[|path| - 1])
    decreases |path|
  {
    if |path| > 1 {
      var rest := path[1..];
      assert ParentLink(ops, path, 0);
      forall i | 0 <= i < |rest| - 1 ensures ParentLink(ops, rest, i) { assert ParentLink(ops, path, i + 1); }
      PathIsUp(ops, rest);
    }
  }

  lemma {:induction false} BelowIff(ops: Registry, x: u64, root: u64)
    ensures Descends(ops, x, root) <==> Below(ops, x, root)
  {
    if Descends(ops, x, root) {
      var n: nat :| Up(ops, x, n) == Some(root);
      var path := UpIsPath(ops, x, n, root);
    }
    if Below(ops, x, root) {
      var path: seq<u64> :| ParentPath(ops, path) && path[0] == x && path[|path| - 1] == root;
      PathIsUp(ops, path);
    }
  }

  /** The operations in scope of a cancel. */
  ghost predicate InScope(ops: Registry, q: CancelRequest, x: u64)
    requires q.operationId in ops
  {
    && x in ops
    && match q.scope
       case OperationOnly => x == q.operationId
       case Subtree => Below(ops, x, q.operationId)
       case Group => ops[x].descriptor.group == ops[q.operationId].descriptor.group
       case WholeSession => ops[x].descriptor.sessionId == q.sessionId
  }

  lemma {:induction false} ScopeIff(ops: Registry, q: CancelRequest, x: u64)
    requires q.operationId in ops
    ensures x in Scope(ops, q) <==> InScope(ops, q, x)
  {
    BelowIff(ops, x, q.operationId);
  }

  /** An accepted cancel cancels exactly the live operations in scope and lists them in ascending order. */
  lemma {:induction false} CancelEffect(ops: Registry, q: CancelRequest)
    requires Step(ops, Cancel(q)).result.Ok?
    ensures q.operationId in ops
    ensures var o := Step(ops, Cancel(q));
      && o.result.value.CancelledIds? && Ascending(o.result.value.ids) && o.next.Keys == ops.Keys
      && (forall x | x in o.result.value.ids :: x in ops.Keys)
      && forall x | x in ops :: var hit := InScope(ops, q, x) && Alive(ops[x].state);
           (x in o.result.value.ids <==> hit) && o.next[x] == if hit then ops[x].(state := Cancelled) else ops[x]
  {
    var o := Step(ops, Cancel(q));
    var live := LiveIn(ops, Scope(ops, q));
    assert Elements(o.result.value.ids) == live;
    assert forall x :: x in o.result.value.ids <==> x in Elements(o.result.value.ids);
    forall x | x in ops ensures x in live <==> InScope(ops, q, x) && Alive(ops[x].state) { ScopeIff(ops, q, x); }
  }

  // ---------------------------------------------------------------- schedules over whole runs

  /** Call `k` is a scheduling message that reaches operation `id`: it is registered, of the message's
      session, and can still change. */
  ghost predicate Reaches(calls: seq<Call>, k: nat, id: u64) {
    && k < |calls| && calls[k].ApplyScheduling? && calls[k].metadata.operationId == id
    && var ops := Run(calls[..k]);
       id in ops && ops[id].descriptor.sessionId == calls[k].sessionId && Alive(ops[id].state)
  }

  /** The last message of the given type, or of any type, that reached `id`. */
  ghost function Latest(calls: seq<Call>, id: u64, messageType: Option<int>): Option<Scheduling> {
    if calls == [] then None
    else
      var n := |calls| - 1;
      if Reaches(calls, n, id) && (messageType.None? || messageType.value == calls[n].messageType)
      then Some(calls[n].metadata)
      else Latest(calls[..n], id, messageType)
  }

  ghost function ScheduleBy(calls: seq<Call>, id: u64): Schedule {
    var priority, deadline := Latest(calls, id, Some(0x32)), Latest(calls, id, Some(0x33));
    var expiry, any := Latest(calls, id, Some(0x34)), Latest(calls, id, None);
    Schedule(
      if priority.Some? then priority.value.priorityClass else 0,
      if priority.Some? then priority.value.priorityDelta else 0,
      if deadline.Some? then deadline.value.deadlineMs else 0,
      if expiry.Some? then expiry.value.deadlineMs else 0,
      if any.Some? then any.value.controlSequence else 0,
      if expiry.Some? then expiry.value.flags else 0)
  }

  lemma {:induction false} ScheduleStep(ops: Registry, call: Call, id: u64)
    requires id in ops
    ensures id in Step(ops, call).next
    ensures Step(ops, call).next[id].schedule ==
      if call.ApplyScheduling? && call.metadata.operationId == id && Alive(ops[id].state)
        && ops[id].descriptor.sessionId == call.sessionId
      then Updated(ops[id].schedule, call.messageType, call.metadata)
      else ops[id].schedule
  {
  }

  lemma {:induction false} NothingReachesUnknown(calls: seq<Call>, id: u64, messageType: Option<int>)
    requires id !in Run(calls)
    ensures Latest(calls, id, messageType).None?
  {
    if calls != [] {
      var n := |calls| - 1;
      RunEvolves(calls[..n], [calls[n]]);
      assert calls[..n] + [calls[n]] == calls;
      NothingReachesUnknown(calls[..n], id, messageType);
    }
  }

  lemma {:induction false} NewOperation(ops: Registry, call: Call, id: u64)
    requires id !in ops && id in Step(ops, call).next
    ensures call.Register? && Step(ops, call).next[id].schedule == Schedule(0, 0, 0, 0, 0, 0)
  {
    if !call.Register? { NonRegisterDescriptors(ops, call); }
  }

  /** Every field of an operation's schedule is the one of the last message of its type that reached it,
      and the sequence number that of the last message of any type, refused ones included. */
  lemma {:induction false} ScheduleByHistory(calls: seq<Call>, id: u64)
    requires id in Run(calls)
    ensures Run(calls)[id].schedule == ScheduleBy(calls, id)
  {
    var n := |calls| - 1;
    var ops := Run(calls[..n]);
    if id in ops {
      ScheduleByHistory(calls[..n], id);
      ScheduleStep(ops, calls[n], id);
    } else {
      NewOperation(ops, calls[n], id);
      NothingReachesUnknown(calls[..n], id, None);
      NothingReachesUnknown(calls[..n], id, Some(0x32));
      NothingReachesUnknown(calls[..n], id, Some(0x33));
      NothingReachesUnknown(calls[..n], id, Some(0x34));
    }
  }
}

/** The operation registry as a state machine over whole runs: registration, state transitions,
    scheduling and the four cancel scopes. */
module Operations {
  import opened Wire
  import opened Bits
  import opened Header
  import opened Order
  import opened OperationStates

  datatype Descriptor = Descriptor(sessionId: u32, operationId: u64, parent: Option<u64>, group: Option<u64>)

  datatype Schedule = Schedule(
    priorityClass: u16, priorityDelta: int, deadlineMs: u64, expireAtMs: u64, updateSequence: u64, flags: u32)

  datatype Record = Record(descriptor: Descriptor, state: OperationState, schedule: Schedule)

  type Registry = map<u64, Record>

  datatype Scheduling = Scheduling(
    operationId: u64, controlSequence: u64, priorityClass: u16, priorityDelta: int, deadlineMs: u64, flags: u32)

  datatype CancelScope = OperationOnly | Subtree | Group | WholeSession
  datatype CancelRequest = CancelRequest(sessionId: u32, operationId: u64, scope: CancelScope)

  datatype Call =
    | Register(descriptor: Descriptor)
    | Transition(id: u64, next: OperationState)
    | Complete(id: u64)
    | Abort(id: u64)
    | ExpireIfStale(id: u64, nowMs: u64)
    | ApplyScheduling(sessionId: u32, messageType: MessageType, metadata: Scheduling)
    | Cancel(request: CancelRequest)

  datatype Reply =
    Done | Expired(schedule: Option<Schedule>) | Scheduled(update: Schedule) | CancelledIds(ids: seq<nat>)

  datatype Outcome = Outcome(next: Registry, result: Result<Reply, NnrpError>)

  const DISCARD_STALE_BIT := 0

  function DefaultSchedule(): Schedule { Schedule(0, 0, 0, 0, 0, 0) }

  // ---------------------------------------------------------------- the operation tree

  /** The ancestor `n` parent links above `x`. */
  function Up(ops: Registry, x: u64, n: nat): Option<u64>
    decreases n
  {
    if x !in ops then None
    else if n == 0 then Some(x)
    else if ops[x].descriptor.parent.None? then None
    else Up(ops, ops[x].descriptor.parent.value, n - 1)
  }

  /** `x` is `root` or below it. */
  ghost predicate Descends(ops: Registry, x: u64, root: u64) { exists n: nat :: Up(ops, x, n) == Some(root) }

  ghost function SubtreeOf(ops: Registry, root: u64): set<u64> { set x | x in ops && Descends(ops, x, root) }

  function GroupOf(ops: Registry, group: Option<u64>): set<u64> {
    set x | x in ops && ops[x].descriptor.group == group
  }

  function SessionOf(ops: Registry, sessionId: u32): set<u64> {
    set x | x in ops && ops[x].descriptor.sessionId == sessionId
  }

  // ---------------------------------------------------------------- one call

  function ShapeError(d: Descriptor): Option<NnrpError> {
    if d.sessionId == 0 then Some(InvalidOperationRelationship(ZeroSession))
    else if d.operationId == 0 then Some(InvalidOperationRelationship(ZeroOperation))
    else if d.parent == Some(d.operationId) then Some(InvalidOperationRelationship(SelfParent))
    else if d.group == Some(0) then Some(InvalidOperationRelationship(ZeroGroup))
    else None
  }

  function RegisterError(ops: Registry, d: Descriptor): Option<NnrpError> {
    if ShapeError(d).Some? then ShapeError(d)
    else if d.operationId in ops then Some(OperationAlreadyExists(d.operationId))
    else if d.parent.None? then None
    else if d.parent.value !in ops then Some(UnknownOperation(d.parent.value))
    else if ops[d.parent.value].descriptor.sessionId != d.sessionId then
      Some(InvalidOperationRelationship(ForeignParent))
    else None
  }

  function SetState(ops: Registry, id: u64, s: OperationState): Registry
    requires id in ops
  {
    ops[id := ops[id].(state := s)]
  }

  function Refused(from: OperationState, to: OperationState): Result<Reply, NnrpError> {
    Err(InvalidOperationTransition(from.Code(), to.Code()))
  }

  function StepTransition(ops: Registry, id: u64, next: OperationState): Outcome {
    if id !in ops then Outcome(ops, Err(UnknownOperation(id)))
    else if !ops[id].state.CanTransitionTo(next) then Outcome(ops, Refused(ops[id].state, next))
    else Outcome(SetState(ops, id, next), Ok(Done))
  }

  /** Completion runs an operation that is still Accepted first. */
  function StepComplete(ops: Registry, id: u64): Outcome {
    if id !in ops then Outcome(ops, Err(UnknownOperation(id)))
    else
      var s := ops[id].state;
      if s.Accepted? || s.CanTransitionTo(Completed) then Outcome(SetState(ops, id, Completed), Ok(Done))
      else Outcome(ops, Refused(s, Completed))
  }

  predicate Stale(r: Record, nowMs: u64) {
    Bit(r.schedule.flags, DISCARD_STALE_BIT) && r.schedule.expireAtMs != 0 && r.schedule.expireAtMs <= nowMs
  }

  function StepExpire(ops: Registry, id: u64, nowMs: u64): Outcome {
    if id !in ops then Outcome(ops, Err(UnknownOperation(id)))
    else if ops[id].state.IsTerminal() || !Stale(ops[id], nowMs) then Outcome(ops, Ok(Expired(None)))
    else Outcome(SetState(ops, id, Superseded), Ok(Expired(Some(ops[id].schedule))))
  }

  /** The schedule after an update; the sequence number is stored before the message type is looked at. */
  function Rescheduled(s: Schedule, messageType: MessageType, m: Scheduling): Schedule {
    var t := s.(updateSequence := m.controlSequence);
    if messageType == PRIORITY_UPDATE then t.(priorityClass := m.priorityClass, priorityDelta := m.priorityDelta)
    else if messageType == DEADLINE then t.(deadlineMs := m.deadlineMs)
    else if messageType == EXPIRE_AT then t.(expireAtMs := m.deadlineMs, flags := m.flags)
    else t
  }

  predicate IsScheduling(messageType: MessageType) {
    messageType == PRIORITY_UPDATE || messageType == DEADLINE || messageType == EXPIRE_AT
  }

  function StepScheduling(ops: Registry, sessionId: u32, messageType: MessageType, m: Scheduling): Outcome {
    if m.operationId !in ops then Outcome(ops, Err(UnknownOperation(m.operationId)))
    else
      var r := ops[m.operationId];
      if r.descriptor.sessionId != sessionId then Outcome(ops, Err(InvalidOperationRelationship(ForeignSchedule)))
      else if r.state.IsTerminal() then Outcome(ops, Refused(r.state, r.state))
      else
        var schedule := Rescheduled(r.schedule, messageType, m);
        Outcome(ops[m.operationId := r.(schedule := schedule)],
                if IsScheduling(messageType) then Ok(Scheduled(schedule))
                else Err(InvalidProtocolCombination(NotScheduling)))
  }

  function CancelError(ops: Registry, q: CancelRequest): Option<NnrpError> {
    if q.operationId !in ops then Some(UnknownOperation(q.operationId))
    else if ops[q.operationId].descriptor.sessionId != q.sessionId then
      Some(InvalidOperationRelationship(ForeignCancel))
    else if q.scope.Group? && ops[q.operationId].descriptor.group.None? then Some(InvalidOperationRelationship(NoGroup))
    else None
  }

  ghost function Scope(ops: Registry, q: CancelRequest): set<u64>
    requires q.operationId in ops
  {
    match q.scope
    case OperationOnly => {q.operationId}
    case Subtree => SubtreeOf(ops, q.operationId)
    case Group => GroupOf(ops, ops[q.operationId].descriptor.group)
    case WholeSession => SessionOf(ops, q.sessionId)
  }

  function LiveIn(ops: Registry, ids: set<u64>): set<u64> {
    set x | x in ids && x in ops && !ops[x].state.IsTerminal()
  }

  function CancelSet(ops: Registry, ids: set<u64>): Registry {
    map x | x in ops ::
      if x in ids && !ops[x].state.IsTerminal() then ops[x].(state := Cancelled) else ops[x]
  }

  ghost function StepCancel(ops: Registry, q: CancelRequest): Outcome {
    if CancelError(ops, q).Some? then Outcome(ops, Err(CancelError(ops, q).value))
    else Outcome(CancelSet(ops, Scope(ops, q)), Ok(CancelledIds(Listing(LiveIn(ops, Scope(ops, q))))))
  }

  ghost function Step(ops: Registry, call: Call): Outcome {
    match call
    case Register(d) =>
      if RegisterError(ops, d).Some? then Outcome(ops, Err(RegisterError(ops, d).value))
      else Outcome(ops[d.operationId := Record(d, Accepted, DefaultSchedule())], Ok(Done))
    case Transition(id, next) => StepTransition(ops, id, next)
    case Complete(id) => StepComplete(ops, id)
    case Abort(id) => StepTransition(ops, id, Failed)
    case ExpireIfStale(id, nowMs) => StepExpire(ops, id, nowMs)
    case ApplyScheduling(sessionId, messageType, m) => StepScheduling(ops, sessionId, messageType, m)
    case Cancel(q) => StepCancel(ops, q)
  }

  ghost function RunFrom(ops: Registry, calls: seq<Call>): Registry {
    if calls == [] then ops else Step(RunFrom(ops, calls[..|calls| - 1]), calls[|calls| - 1]).next
  }

  ghost function Run(calls: seq<Call>): Registry { RunFrom(map[], calls) }

  // ---------------------------------------------------------------- every reachable registry is a forest

  /** Depths that decrease along every parent link, which stays inside the session. */
  ghost predicate Ranked(ops: Registry, depth: map<u64, nat>) {
    forall x | x in ops ::
      && x in depth && ops[x].descriptor.operationId == x && ShapeError(ops[x].descriptor).None?
      && (ops[x].descriptor.parent.Some? ==>
            var p := ops[x].descriptor.parent.value;
            && p in ops && p in depth && ops[p].descriptor.sessionId == ops[x].descriptor.sessionId
            && depth[p] < depth[x])
  }

  ghost predicate Forest(ops: Registry) { exists depth: map<u64, nat> :: Ranked(ops, depth) }

  predicate SameDescriptors(a: Registry, b: Registry) {
    a.Keys == b.Keys && forall x | x in a :: a[x].descriptor == b[x].descriptor
  }

  lemma {:induction false} NonRegisterDescriptors(ops: Registry, call: Call)
    requires !call.Register?
    ensures SameDescriptors(ops, Step(ops, call).next)
  {
  }

  lemma {:induction false} StepForest(ops: Registry, call: Call)
    requires Forest(ops)
    ensures Forest(Step(ops, call).next)
  {
    var depth :| Ranked(ops, depth);
    var next := Step(ops, call).next;
    if call.Register? {
      var d := call.descriptor;
      if RegisterError(ops, d).None? {
        var k := if d.parent.Some? then depth[d.parent.value] + 1 else 0;
        assert Ranked(next, depth[d.operationId := k]);
      }
    } else {
      NonRegisterDescriptors(ops, call);
      assert Ranked(next, depth);
    }
  }

  /** In every reachable registry the parent links form a forest inside each session. */
  lemma {:induction false} RunForest(calls: seq<Call>)
    ensures Forest(Run(calls))
  {
    if calls == [] {
      assert Ranked(map[], map[]);
    } else {
      RunForest(calls[..|calls| - 1]);
      StepForest(Run(calls[..|calls| - 1]), calls[|calls| - 1]);
    }
  }

  lemma {:induction false} UpRank(ops: Registry, depth: map<u64, nat>, x: u64, n: nat)
    requires Ranked(ops, depth) && x in ops && Up(ops, x, n).Some?
    ensures var a := Up(ops, x, n).value;
      && a in ops && depth[a] + n <= depth[x]
      && ops[a].descriptor.sessionId == ops[x].descriptor.sessionId
    decreases n
  {
    if n > 0 {
      UpRank(ops, depth, ops[x].descriptor.parent.value, n - 1);
    }
  }

  /** Parent links never lead back: no operation is its own proper ancestor. */
  lemma {:induction false} NoCycles(ops: Registry, x: u64, n: nat)
    requires Forest(ops) && x in ops && n > 0
    ensures Up(ops, x, n) != Some(x)
  {
    var depth :| Ranked(ops, depth);
    if Up(ops, x, n) == Some(x) {
      UpRank(ops, depth, x, n);
    }
  }

  /** A whole subtree belongs to the session of its root. */
  lemma {:induction false} SubtreeInSession(ops: Registry, root: u64)
    requires Forest(ops) && root in ops
    ensures SubtreeOf(ops, root) <= SessionOf(ops, ops[root].descriptor.sessionId)
  {
    var depth :| Ranked(ops, depth);
    forall x | x in SubtreeOf(ops, root) ensures x in SessionOf(ops, ops[root].descriptor.sessionId) {
      var n: nat :| Up(ops, x, n) == Some(root);
      UpRank(ops, depth, x, n);
    }
  }

  // ---------------------------------------------------------------- records over whole runs

  /** What may happen to a record: its descriptor is fixed, its state follows legal transitions,
      and once terminal the whole record is frozen. */
  ghost predicate RecordEvolves(a: Record, b: Record) {
    && b.descriptor == a.descriptor && Follows(a.state, b.state)
    && (a.state.IsTerminal() ==> b == a)
  }

  ghost predicate Evolves(a: Registry, b: Registry) {
    forall x | x in a :: x in b && RecordEvolves(a[x], b[x])
  }

  lemma {:induction false} Direct(a: OperationState, b: OperationState)
    requires a.CanTransitionTo(b)
    ensures Follows(a, b)
  {
    FollowsSelf(a);
    FollowsThen(a, a, b);
  }

  lemma {:induction false} StepRecord(ops: Registry, call: Call, x: u64)
    requires x in ops
    ensures var next := Step(ops, call).next;
      x in next && RecordEvolves(ops[x], next[x])
  {
    var r := ops[x];
    FollowsSelf(r.state);
    if !r.state.IsTerminal() {
      Direct(r.state, Cancelled);
      Direct(r.state, Superseded);
      match call {
        case Transition(id, s) => if r.state.CanTransitionTo(s) { Direct(r.state, s); }
        case Abort(id) => Direct(r.state, Failed);
        case Complete(id) =>
          if r.state.Accepted? { Direct(r.state, Running); FollowsThen(r.state, Running, Completed); }
          else if r.state.CanTransitionTo(Completed) { Direct(r.state, Completed); }
        case _ =>
      }
    }
  }

  lemma {:induction false} RecordEvolvesTransitive(a: Record, b: Record, c: Record)
    requires RecordEvolves(a, b) && RecordEvolves(b, c)
    ensures RecordEvolves(a, c)
  {
    FollowsTransitive(a.state, b.state, c.state);
  }

  lemma {:induction false} RunFromEvolves(ops: Registry, calls: seq<Call>, x: u64)
    requires x in ops
    ensures x in RunFrom(ops, calls) && RecordEvolves(ops[x], RunFrom(ops, calls)[x])
  {
    if calls == [] {
      FollowsSelf(ops[x].state);
    } else {
      var n := |calls| - 1;
      RunFromEvolves(ops, calls[..n], x);
      StepRecord(RunFrom(ops, calls[..n]), calls[n], x);
      RecordEvolvesTransitive(ops[x], RunFrom(ops, calls[..n])[x], RunFrom(ops, calls)[x]);
    }
  }

  lemma {:induction false} RunFromConcat(ops: Registry, calls: seq<Call>, more: seq<Call>)
    ensures RunFrom(ops, calls + more) == RunFrom(RunFrom(ops, calls), more)
  {
    if more == [] {
      assert calls + more == calls;
    } else {
      var n := |more| - 1;
      RunFromConcat(ops, calls, more[..n]);
      assert (calls + more)[..|calls + more| - 1] == calls + more[..n];
    }
  }

  /** Every continuation keeps every record, its descriptor, the legality of its state changes,
      and every terminal record as it is. */
  lemma {:induction false} RunEvolves(calls: seq<Call>, more: seq<Call>)
    ensures Evolves(Run(calls), Run(calls + more))
  {
    RunFromConcat(map[], calls, more);
    forall x | x in Run(calls) ensures x in Run(calls + more) && RecordEvolves(Run(calls)[x], Run(calls + more)[x]) {
      RunFromEvolves(Run(calls), more, x);
    }
  }

  /** Every record of every reachable registry got to its state by legal transitions from Accepted. */
  lemma {:induction false} StatesAreEarned(calls: seq<Call>, x: u64)
    requires x in Run(calls)
    ensures Follows(Accepted, Run(calls)[x].state)
  {
    if calls != [] {
      var n := |calls| - 1;
      var ops := Run(calls[..n]);
      if x in ops {
        StatesAreEarned(calls[..n], x);
        StepRecord(ops, calls[n], x);
        FollowsTransitive(Accepted, ops[x].state, Run(calls)[x].state);
      } else {
        FollowsSelf(Accepted);
        if !calls[n].Register? { NonRegisterDescriptors(ops, calls[n]); }
      }
    }
  }
}

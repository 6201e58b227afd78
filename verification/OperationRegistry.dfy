/** The registry object: its map of records is updated in place by each call, and each call is
    proved to be one `Step` of the registry state machine. */
module OperationRegistryObject {
  import opened Wire
  import opened Bits
  import opened Header
  import opened Order
  import opened OperationStates
  import opened Operations

  /** The members of a set, each once, in no particular order. */
  method Members(s: set<u64>) returns (ids: seq<u64>)
    ensures Elements(ids) == s
    ensures forall i, j | 0 <= i < j < |ids| :: ids[i] != ids[j]
  {
    ids := [];
    var todo := s;
    while todo != {}
      invariant todo <= s && Elements(ids) == s - todo
      invariant forall i, j | 0 <= i < j < |ids| :: ids[i] != ids[j]
      decreases todo
    {
      var x :| x in todo;
      assert forall i | 0 <= i < |ids| :: ids[i] in Elements(ids);
      assert Elements(ids + [x]) == Elements(ids) + {x};
      ids, todo := ids + [x], todo - {x};
    }
  }

  /** A set of operations that holds `root` and, with an operation, all its children holds the
      whole subtree. */
  lemma {:induction false} ClosedHoldsSubtree(ops: Registry, root: u64, s: set<u64>, x: u64, n: nat)
    requires root in s && Up(ops, x, n) == Some(root)
    requires forall c: u64 | c in ops && ops[c].descriptor.parent.Some? && ops[c].descriptor.parent.value in s :: c in s
    ensures x in s
    decreases n
  {
    if n > 0 {
      ClosedHoldsSubtree(ops, root, s, ops[x].descriptor.parent.value, n - 1);
    }
  }

  lemma {:induction false} ChildDescends(ops: Registry, root: u64, x: u64, p: u64)
    requires x in ops && ops[x].descriptor.parent == Some(p) && Descends(ops, p, root)
    ensures Descends(ops, x, root)
  {
    var n: nat :| Up(ops, p, n) == Some(root);
    assert Up(ops, x, n + 1) == Some(root);
  }

  /** Cancelling one more operation. */
  lemma {:induction false} CancelOne(before: Registry, done: set<u64>, id: u64)
    requires id in before && id !in done
    ensures var now, after := CancelSet(before, done), CancelSet(before, done + {id});
      && now.Keys == before.Keys
      && now[id] == before[id]
      && after == (if before[id].state.IsTerminal() then now else now[id := before[id].(state := Cancelled)])
      && LiveIn(before, done + {id}) == LiveIn(before, done) + (if before[id].state.IsTerminal() then {} else {id})
  {
  }

  /** The next id of an ascending list is above all the ones before it. */
  lemma {:induction false} NextId(ids: seq<nat>, i: nat)
    requires Ascending(ids) && i < |ids|
    ensures ids[i] in Elements(ids) && Elements(ids[..i + 1]) == Elements(ids[..i]) + {ids[i]}
    ensures forall x | x in Elements(ids[..i]) :: x < ids[i]
  {
    assert ids[..i + 1] == ids[..i] + [ids[i]];
  }

  lemma {:induction false} SnocAscending(s: seq<nat>, x: nat)
    requires Ascending(s) && forall y | y in Elements(s) :: y < x
    ensures Ascending(s + [x]) && Elements(s + [x]) == Elements(s) + {x}
  {
    assert forall i | 0 <= i < |s| :: s[i] in Elements(s);
  }

  class OperationRegistry {
    var operations: Registry

    ghost predicate Valid()
      reads this
    {
      Forest(operations)
    }

    constructor ()
      ensures operations == map[] && Valid()
    {
      operations := map[];
      new;
      assert Ranked(operations, map[]);
    }

    method RegisterOperation(d: Descriptor) returns (r: Result<Reply, NnrpError>)
      requires Valid()
      modifies this
      ensures Valid() && Outcome(operations, r) == Step(old(operations), Register(d))
    {
      StepForest(operations, Register(d));
      if d.sessionId == 0 { return Err(InvalidOperationRelationship(ZeroSession)); }
      if d.operationId == 0 { return Err(InvalidOperationRelationship(ZeroOperation)); }
      if d.parent == Some(d.operationId) { return Err(InvalidOperationRelationship(SelfParent)); }
      if d.group == Some(0) { return Err(InvalidOperationRelationship(ZeroGroup)); }
      if d.operationId in operations { return Err(OperationAlreadyExists(d.operationId)); }
      if d.parent.Some? {
        if d.parent.value !in operations { return Err(UnknownOperation(d.parent.value)); }
        if operations[d.parent.value].descriptor.sessionId != d.sessionId {
          return Err(InvalidOperationRelationship(ForeignParent));
        }
      }
      operations := operations[d.operationId := Record(d, Accepted, DefaultSchedule())];
      r := Ok(Done);
    }

    method TransitionOperation(id: u64, next: OperationState) returns (r: Result<Reply, NnrpError>)
      requires Valid()
      modifies this
      ensures Valid() && Outcome(operations, r) == Step(old(operations), Transition(id, next))
    {
      StepForest(operations, Transition(id, next));
      if id !in operations { return Err(UnknownOperation(id)); }
      var record := operations[id];
      if !record.state.CanTransitionTo(next) { return Refused(record.state, next); }
      operations := operations[id := record.(state := next)];
      r := Ok(Done);
    }

    method CompleteOperation(id: u64) returns (r: Result<Reply, NnrpError>)
      requires Valid()
      modifies this
      ensures Valid() && Outcome(operations, r) == Step(old(operations), Complete(id))
    {
      StepForest(operations, Complete(id));
      if id !in operations { return Err(UnknownOperation(id)); }
      var state := operations[id].state;
      if state.IsTerminal() { return Refused(state, Completed); }
      if state == Accepted {
        state := Running;
        operations := operations[id := operations[id].(state := Running)];
      }
      if !state.CanTransitionTo(Completed) { return Refused(state, Completed); }
      operations := operations[id := operations[id].(state := Completed)];
      assert operations == Step(old(operations), Complete(id)).next;
      r := Ok(Done);
    }

    method AbortOperation(id: u64) returns (r: Result<Reply, NnrpError>)
      requires Valid()
      modifies this
      ensures Valid() && Outcome(operations, r) == Step(old(operations), Abort(id))
    {
      r := TransitionOperation(id, Failed);
    }

    method ExpireOperationIfStale(id: u64, nowMs: u64) returns (r: Result<Reply, NnrpError>)
      requires Valid()
      modifies this
      ensures Valid() && Outcome(operations, r) == Step(old(operations), ExpireIfStale(id, nowMs))
    {
      StepForest(operations, ExpireIfStale(id, nowMs));
      if id !in operations { return Err(UnknownOperation(id)); }
      var record := operations[id];
      if record.state.IsTerminal() { return Ok(Expired(None)); }
      if !Bit(record.schedule.flags, DISCARD_STALE_BIT) || record.schedule.expireAtMs == 0
        || record.schedule.expireAtMs > nowMs
      {
        return Ok(Expired(None));
      }
      operations := operations[id := record.(state := Superseded)];
      r := Ok(Expired(Some(record.schedule)));
    }

    method ApplySchedulingUpdate(sessionId: u32, messageType: MessageType, m: Scheduling)
      returns (r: Result<Reply, NnrpError>)
      requires Valid()
      modifies this
      ensures Valid() && Outcome(operations, r) == Step(old(operations), ApplyScheduling(sessionId, messageType, m))
    {
      StepForest(operations, ApplyScheduling(sessionId, messageType, m));
      if m.operationId !in operations { return Err(UnknownOperation(m.operationId)); }
      var record := operations[m.operationId];
      if record.descriptor.sessionId != sessionId { return Err(InvalidOperationRelationship(ForeignSchedule)); }
      if record.state.IsTerminal() { return Refused(record.state, record.state); }

      record := record.(schedule := record.schedule.(updateSequence := m.controlSequence));
      operations := operations[m.operationId := record];
      if messageType == PRIORITY_UPDATE {
        record := record.(schedule := record.schedule.(priorityClass := m.priorityClass));
        record := record.(schedule := record.schedule.(priorityDelta := m.priorityDelta));
      } else if messageType == DEADLINE {
        record := record.(schedule := record.schedule.(deadlineMs := m.deadlineMs));
      } else if messageType == EXPIRE_AT {
        record := record.(schedule := record.schedule.(expireAtMs := m.deadlineMs));
        record := record.(schedule := record.schedule.(flags := m.flags));
      } else {
        return Err(InvalidProtocolCombination(NotScheduling));
      }
      operations := operations[m.operationId := record];
      assert operations == Step(old(operations), ApplyScheduling(sessionId, messageType, m)).next;
      r := Ok(Scheduled(record.schedule));
    }

    /** Collect a subtree with a work list: pop an operation, skip it when already collected,
        otherwise push its children. */
    method SubtreeIds(root: u64) returns (collected: set<u64>)
      requires Valid() && root in operations
      ensures collected == SubtreeOf(operations, root)
    {
      collected := {};
      var stack := [root];
      assert Up(operations, root, 0) == Some(root);
      while stack != []
        invariant collected <= SubtreeOf(operations, root)
        invariant forall x | x in stack :: x in SubtreeOf(operations, root)
        invariant root in collected || root in stack
        invariant forall x: u64 | x in operations && operations[x].descriptor.parent.Some?
          && operations[x].descriptor.parent.value in collected :: x in collected || x in stack
        decreases operations.Keys - collected, |stack|
      {
        ghost var before := stack;
        var id := stack[|stack| - 1];
        stack := stack[..|stack| - 1];
        assert forall x | x in before :: x == id || x in stack;
        if id in collected { continue; }
        collected := collected + {id};
        stack := PushChildren(root, id, stack);
      }
      forall x | x in SubtreeOf(operations, root) ensures x in collected {
        var n: nat :| Up(operations, x, n) == Some(root);
        ClosedHoldsSubtree(operations, root, collected, x, n);
      }
    }

    method PushChildren(ghost root: u64, id: u64, stack: seq<u64>) returns (pushed: seq<u64>)
      requires Valid() && id in SubtreeOf(operations, root)
      requires forall x | x in stack :: x in SubtreeOf(operations, root)
      ensures forall x | x in pushed :: x in SubtreeOf(operations, root)
      ensures forall x | x in stack :: x in pushed
      ensures forall x: u64 | x in operations && operations[x].descriptor.parent == Some(id) :: x in pushed
    {
      pushed := stack;
      var todo := operations.Keys;
      while todo != {}
        invariant todo <= operations.Keys
        invariant forall x | x in pushed :: x in SubtreeOf(operations, root)
        invariant forall x | x in stack :: x in pushed
        invariant forall x: u64 | x in operations && operations[x].descriptor.parent == Some(id) ::
          x in todo || x in pushed
        decreases todo
      {
        var x :| x in todo;
        todo := todo - {x};
        if operations[x].descriptor.parent == Some(id) {
          ChildDescends(operations, root, x, id);
          ghost var depth :| Ranked(operations, depth);
          pushed := pushed + [operations[x].descriptor.operationId];
        }
      }
    }

    method CancelOperations(q: CancelRequest) returns (r: Result<Reply, NnrpError>)
      requires Valid()
      modifies this
      ensures Valid() && Outcome(operations, r) == Step(old(operations), Cancel(q))
    {
      StepForest(operations, Cancel(q));
      if q.operationId !in operations { return Err(UnknownOperation(q.operationId)); }
      var target := operations[q.operationId].descriptor;
      if target.sessionId != q.sessionId { return Err(InvalidOperationRelationship(ForeignCancel)); }

      var scope: set<u64>;
      match q.scope {
        case OperationOnly => scope := {q.operationId};
        case Subtree => scope := SubtreeIds(q.operationId);
        case Group =>
          if target.group.None? { return Err(InvalidOperationRelationship(NoGroup)); }
          scope := GroupOf(operations, target.group);
        case WholeSession => scope := SessionOf(operations, q.sessionId);
      }
      var ids := Members(scope);
      var sorted := Sort(ids);
      assert forall i | 0 <= i < |sorted| :: sorted[i] in Elements(sorted);
      var cancelled := CancelEach(sorted, scope);
      AscendingUnique(cancelled, Listing(LiveIn(old(operations), scope)));
      r := Ok(CancelledIds(cancelled));
    }

    method CancelEach(ids: seq<nat>, ghost scope: set<u64>) returns (cancelled: seq<nat>)
      requires Ascending(ids) && Elements(ids) == scope && scope <= operations.Keys
      modifies this
      ensures operations == CancelSet(old(operations), scope)
      ensures Ascending(cancelled) && Elements(cancelled) == LiveIn(old(operations), scope)
    {
      cancelled := [];
      ghost var before, done: set<u64> := operations, {};
      assert before == CancelSet(before, {});
      for i := 0 to |ids|
        invariant done == Elements(ids[..i]) && done <= scope
        invariant operations == CancelSet(before, done)
        invariant Ascending(cancelled) && Elements(cancelled) == LiveIn(before, done)
      {
        NextId(ids, i);
        CancelOne(before, done, ids[i]);
        if !operations[ids[i]].state.IsTerminal() {
          operations := operations[ids[i] := operations[ids[i]].(state := Cancelled)];
          SnocAscending(cancelled, ids[i]);
          cancelled := cancelled + [ids[i]];
        }
        done := done + {ids[i]};
      }
      assert ids[..|ids|] == ids;
    }
  }
}

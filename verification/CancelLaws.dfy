/** Laws of the cancel scopes and of refused calls, with the exact conditions of the two laws
    that do not hold without one. */
module CancelLaws {
  import opened Wire
  import opened Order
  import opened OperationStates
  import opened Operations

  // ---------------------------------------------------------------- what a cancel changes

  ghost predicate Accepts(ops: Registry, q: CancelRequest) { CancelError(ops, q).None? }

  ghost predicate Changed(ops: Registry, q: CancelRequest, x: u64) {
    x in ops && x in Step(ops, Cancel(q)).next && Step(ops, Cancel(q)).next[x] != ops[x]
  }

  /** An accepted cancel lists, in ascending order, exactly the operations it changes: the live
      ones in scope. Each becomes Cancelled with descriptor and schedule kept, nothing else is
      touched, and nothing live is left in scope. */
  lemma {:induction false} CancelIsExact(ops: Registry, q: CancelRequest)
    requires Accepts(ops, q)
    ensures var o := Step(ops, Cancel(q));
      && o.result.Ok? && o.result.value.CancelledIds? && Ascending(o.result.value.ids)
      && o.next.Keys == ops.Keys
      && Elements(o.result.value.ids) <= ops.Keys
      && (forall x | x in ops :: Changed(ops, q, x) <==> x in o.result.value.ids)
      && (forall x | x in ops && Changed(ops, q, x) :: x in Scope(ops, q) && o.next[x] == ops[x].(state := Cancelled))
      && (forall x | x in Scope(ops, q) && x in ops :: o.next[x].state.IsTerminal())
  {
    var ids := Listing(LiveIn(ops, Scope(ops, q)));
    assert forall x :: x in ids <==> x in Elements(ids);
  }

  // ---------------------------------------------------------------- which sessions a cancel reaches

  ghost predicate Confined(ops: Registry, q: CancelRequest) {
    forall x: u64 | Changed(ops, q, x) :: ops[x].descriptor.sessionId == q.sessionId
  }

  /** Cancelling one operation, a subtree or a session never reaches another session. */
  lemma {:induction false} CancelStaysInSession(calls: seq<Call>, q: CancelRequest)
    requires Accepts(Run(calls), q) && !q.scope.Group?
    ensures Confined(Run(calls), q)
  {
    var ops := Run(calls);
    RunForest(calls);
    SubtreeInSession(ops, q.operationId);
    assert Scope(ops, q) <= SessionOf(ops, q.sessionId);
  }

  lemma {:induction false} RunOne(call: Call)
    ensures Run([call]) == Step(map[], call).next
  {
    assert [call][..0] == [];
    assert RunFrom(map[], []) == map[];
  }

  /** A group cancel can reach another session: two sessions may use the same group id. */
  lemma {:induction false} GroupCancelCrossesSessions()
    ensures var mine, theirs := Descriptor(42, 1, None, Some(7)), Descriptor(43, 2, None, Some(7));
      var ops := Run([Register(mine), Register(theirs)]);
      var q := CancelRequest(42, 1, Group);
      Accepts(ops, q) && Changed(ops, q, 2) && ops[2].descriptor.sessionId == 43
  {
    var mine, theirs := Descriptor(42, 1, None, Some(7)), Descriptor(43, 2, None, Some(7));
    var calls := [Register(mine), Register(theirs)];
    RunOne(Register(mine));
    assert calls[..1] == [Register(mine)];
    assert Run(calls) == Step(Run(calls[..1]), calls[1]).next;
  }

  /** No live operation shares its group with an operation of another session. */
  ghost predicate GroupsStayInside(ops: Registry) {
    forall x: u64, y: u64 | x in ops && y in ops && ops[x].descriptor.group.Some?
        && ops[x].descriptor.group == ops[y].descriptor.group && !ops[y].state.IsTerminal() ::
      ops[x].descriptor.sessionId == ops[y].descriptor.sessionId
  }

  /** Group cancels stay in their session exactly when no live operation shares a group across sessions. */
  lemma {:induction false} GroupCancelConfinedIff(ops: Registry)
    ensures (forall q: CancelRequest | q.scope.Group? && Accepts(ops, q) :: Confined(ops, q)) <==> GroupsStayInside(ops)
  {
    if forall q: CancelRequest | q.scope.Group? && Accepts(ops, q) :: Confined(ops, q) {
      forall x: u64, y: u64 | x in ops && y in ops && ops[x].descriptor.group.Some?
          && ops[x].descriptor.group == ops[y].descriptor.group && !ops[y].state.IsTerminal()
        ensures ops[x].descriptor.sessionId == ops[y].descriptor.sessionId
      {
        var q := CancelRequest(ops[x].descriptor.sessionId, x, Group);
        assert Accepts(ops, q) && Confined(ops, q) && Changed(ops, q, y);
      }
    }
  }

  // ---------------------------------------------------------------- repeating and reordering cancels

  lemma {:induction false} UpSame(a: Registry, b: Registry, x: u64, n: nat)
    requires SameDescriptors(a, b)
    ensures Up(a, x, n) == Up(b, x, n)
    decreases n
  {
    if x in a && n > 0 && a[x].descriptor.parent.Some? {
      UpSame(a, b, a[x].descriptor.parent.value, n - 1);
    }
  }

  /** The scope of a request is decided by descriptors alone. */
  lemma {:induction false} ScopeSame(a: Registry, b: Registry, q: CancelRequest)
    requires SameDescriptors(a, b)
    ensures CancelError(a, q) == CancelError(b, q)
    ensures q.operationId in a ==> Scope(a, q) == Scope(b, q)
  {
    if q.operationId in a && q.scope.Subtree? {
      forall x: u64, n: nat ensures Up(a, x, n) == Up(b, x, n) { UpSame(a, b, x, n); }
      assert forall x: u64 :: Descends(a, x, q.operationId) <==> Descends(b, x, q.operationId);
    }
  }

  lemma {:induction false} CancelSetComposes(ops: Registry, s: set<u64>, t: set<u64>)
    ensures CancelSet(CancelSet(ops, s), t) == CancelSet(ops, s + t)
  {
  }

  /** Repeating an accepted cancel cancels nothing more. */
  lemma {:induction false} CancelIdempotent(ops: Registry, q: CancelRequest)
    requires Accepts(ops, q)
    ensures var next := Step(ops, Cancel(q)).next;
      Step(next, Cancel(q)) == Outcome(next, Ok(CancelledIds([])))
  {
    var next := Step(ops, Cancel(q)).next;
    NonRegisterDescriptors(ops, Cancel(q));
    ScopeSame(ops, next, q);
    CancelSetComposes(ops, Scope(ops, q), Scope(ops, q));
    assert LiveIn(next, Scope(next, q)) == {};
  }

  /** Two accepted cancels give the same registry in either order, and both stay accepted. */
  lemma {:induction false} CancelsCommute(ops: Registry, q: CancelRequest, r: CancelRequest)
    requires Accepts(ops, q) && Accepts(ops, r)
    ensures var afterQ, afterR := Step(ops, Cancel(q)).next, Step(ops, Cancel(r)).next;
      && Accepts(afterQ, r) && Accepts(afterR, q)
      && Step(afterQ, Cancel(r)).next == Step(afterR, Cancel(q)).next
  {
    var afterQ, afterR := Step(ops, Cancel(q)).next, Step(ops, Cancel(r)).next;
    NonRegisterDescriptors(ops, Cancel(q));
    NonRegisterDescriptors(ops, Cancel(r));
    ScopeSame(ops, afterQ, r);
    ScopeSame(ops, afterR, q);
    CancelSetComposes(ops, Scope(ops, q), Scope(ops, r));
    CancelSetComposes(ops, Scope(ops, r), Scope(ops, q));
    assert Scope(ops, q) + Scope(ops, r) == Scope(ops, r) + Scope(ops, q);
  }

  // ---------------------------------------------------------------- does a cancelled subtree stay cancelled?

  /** Nothing below `root` is live. */
  ghost predicate Quiet(ops: Registry, root: u64) {
    forall x | x in SubtreeOf(ops, root) :: ops[x].state.IsTerminal()
  }

  lemma {:induction false} SubtreeCancelQuiets(ops: Registry, q: CancelRequest)
    requires Accepts(ops, q) && q.scope.Subtree?
    ensures Quiet(Step(ops, Cancel(q)).next, q.operationId)
  {
    var next := Step(ops, Cancel(q)).next;
    NonRegisterDescriptors(ops, Cancel(q));
    ScopeSame(ops, next, q);
    CancelIsExact(ops, q);
  }

  /** The operations of a quiet subtree keep their terminal records through every continuation. */
  lemma {:induction false} QuietMembersStayTerminal(calls: seq<Call>, more: seq<Call>, root: u64)
    requires Quiet(Run(calls), root)
    ensures forall x | x in SubtreeOf(Run(calls), root) ::
      x in Run(calls + more) && Run(calls + more)[x] == Run(calls)[x]
  {
    RunEvolves(calls, more);
  }

  lemma {:induction false} UpAfterRegister(ops: Registry, d: Descriptor, x: u64, n: nat)
    requires Forest(ops) && RegisterError(ops, d).None? && x in ops
    ensures Up(Step(ops, Register(d)).next, x, n) == Up(ops, x, n)
    decreases n
  {
    var depth :| Ranked(ops, depth);
    if n > 0 && ops[x].descriptor.parent.Some? {
      UpAfterRegister(ops, d, ops[x].descriptor.parent.value, n - 1);
    }
  }

  /** A registration joins the subtree of `root` exactly when its parent is in it. */
  lemma {:induction false} RegisterJoins(ops: Registry, d: Descriptor, root: u64)
    requires Forest(ops) && RegisterError(ops, d).None? && root in ops
    ensures var next := Step(ops, Register(d)).next;
      SubtreeOf(next, root) == SubtreeOf(ops, root)
        + (if d.parent.Some? && d.parent.value in SubtreeOf(ops, root) then {d.operationId} else {})
  {
    var next := Step(ops, Register(d)).next;
    forall x: u64, n: nat | x in ops ensures Up(next, x, n) == Up(ops, x, n) { UpAfterRegister(ops, d, x, n); }
    assert forall x: u64 | x in ops :: Descends(next, x, root) <==> Descends(ops, x, root);
    if Descends(next, d.operationId, root) {
      var n: nat :| Up(next, d.operationId, n) == Some(root);
      assert Up(next, d.parent.value, n - 1) == Some(root);
      assert Descends(next, d.parent.value, root);
    }
    if d.parent.Some? && d.parent.value in SubtreeOf(ops, root) {
      var n: nat :| Up(next, d.parent.value, n) == Some(root);
      assert Up(next, d.operationId, n + 1) == Some(root);
    }
  }

  /** Registration does not look at the parent's state: it wakes a quiet subtree exactly when the
      new operation's parent lies in it. */
  lemma {:induction false} RegisterKeepsQuietIff(ops: Registry, d: Descriptor, root: u64)
    requires Forest(ops) && RegisterError(ops, d).None? && root in ops && Quiet(ops, root)
    ensures Quiet(Step(ops, Register(d)).next, root) <==>
      !(d.parent.Some? && d.parent.value in SubtreeOf(ops, root))
  {
    RegisterJoins(ops, d, root);
  }

  /** Call `i` of `more`, made after `calls`, is an accepted registration below `root`. */
  ghost predicate JoinsAt(calls: seq<Call>, more: seq<Call>, root: u64, i: nat) {
    && i < |more| && more[i].Register? && RegisterError(Run(calls + more[..i]), more[i].descriptor).None?
    && more[i].descriptor.parent.Some? && more[i].descriptor.parent.value in SubtreeOf(Run(calls), root)
  }

  lemma {:induction false} RunNext(calls: seq<Call>, more: seq<Call>, i: nat)
    requires i < |more|
    ensures Run(calls + more[..i + 1]) == Step(Run(calls + more[..i]), more[i]).next
  {
    assert calls + more[..i + 1] == calls + more[..i] + [more[i]];
    assert (calls + more[..i + 1])[..|calls| + i] == calls + more[..i];
  }

  /** A call that is no accepted registration leaves every subtree as it is. */
  lemma {:induction false} OtherCallsKeepSubtrees(ops: Registry, call: Call, root: u64)
    requires root in ops && (call.Register? ==> RegisterError(ops, call.descriptor).Some?)
    ensures SubtreeOf(Step(ops, call).next, root) == SubtreeOf(ops, root)
  {
    var next := Step(ops, call).next;
    if !call.Register? {
      NonRegisterDescriptors(ops, call);
      forall x: u64, n: nat ensures Up(ops, x, n) == Up(next, x, n) { UpSame(ops, next, x, n); }
      assert forall x: u64 :: Descends(ops, x, root) <==> Descends(next, x, root);
    }
  }

  /** While nothing joins, the subtree keeps its members. */
  lemma {:induction false} NoJoinNoGrowth(calls: seq<Call>, more: seq<Call>, root: u64, k: nat)
    requires root in Run(calls) && k <= |more| && forall i: nat | i < k :: !JoinsAt(calls, more, root, i)
    ensures root in Run(calls + more[..k]) && SubtreeOf(Run(calls + more[..k]), root) == SubtreeOf(Run(calls), root)
  {
    RunEvolves(calls, more[..k]);
    if k == 0 {
      assert calls + more[..0] == calls;
    } else {
      var ops, call := Run(calls + more[..k - 1]), more[k - 1];
      NoJoinNoGrowth(calls, more, root, k - 1);
      RunNext(calls, more, k - 1);
      assert !JoinsAt(calls, more, root, k - 1);
      if call.Register? && RegisterError(ops, call.descriptor).None? {
        RunForest(calls + more[..k - 1]);
        RegisterJoins(ops, call.descriptor, root);
      } else {
        OtherCallsKeepSubtrees(ops, call, root);
      }
    }
  }

  lemma {:induction false} NoJoinStaysQuiet(calls: seq<Call>, more: seq<Call>, root: u64, k: nat)
    requires root in Run(calls) && Quiet(Run(calls), root) && k <= |more|
    requires forall i: nat | i < k :: !JoinsAt(calls, more, root, i)
    ensures Quiet(Run(calls + more[..k]), root)
  {
    NoJoinNoGrowth(calls, more, root, k);
    QuietMembersStayTerminal(calls, more[..k], root);
  }

  lemma {:induction false} FirstJoinWakes(calls: seq<Call>, more: seq<Call>, root: u64, k: nat)
    requires root in Run(calls) && Quiet(Run(calls), root) && JoinsAt(calls, more, root, k)
    requires forall i: nat | i < k :: !JoinsAt(calls, more, root, i)
    ensures !Quiet(Run(calls + more[..k + 1]), root)
  {
    NoJoinNoGrowth(calls, more, root, k);
    NoJoinStaysQuiet(calls, more, root, k);
    RunForest(calls + more[..k]);
    RegisterKeepsQuietIff(Run(calls + more[..k]), more[k].descriptor, root);
    RunNext(calls, more, k);
  }

  lemma {:induction false} FirstJoin(calls: seq<Call>, more: seq<Call>, root: u64, j: nat) returns (k: nat)
    requires JoinsAt(calls, more, root, j)
    ensures JoinsAt(calls, more, root, k) && forall i: nat | i < k :: !JoinsAt(calls, more, root, i)
    decreases j
  {
    k := j;
    if i: nat :| i < j && JoinsAt(calls, more, root, i) {
      k := FirstJoin(calls, more, root, i);
    }
  }

  /** A quiet subtree stays quiet through a whole continuation exactly when no accepted registration in
      it has its parent in the subtree. */
  lemma {:induction false} StaysQuietIff(calls: seq<Call>, more: seq<Call>, root: u64)
    requires root in Run(calls) && Quiet(Run(calls), root)
    ensures (forall k: nat | k <= |more| :: Quiet(Run(calls + more[..k]), root)) <==>
      forall i: nat | i < |more| :: !JoinsAt(calls, more, root, i)
  {
    if j: nat :| j < |more| && JoinsAt(calls, more, root, j) {
      var k := FirstJoin(calls, more, root, j);
      FirstJoinWakes(calls, more, root, k);
    } else {
      forall k: nat | k <= |more| ensures Quiet(Run(calls + more[..k]), root) {
        NoJoinStaysQuiet(calls, more, root, k);
      }
    }
  }

  /** Cancelling the subtree of an operation does not keep it quiet: a child can be registered after it. */
  lemma {:induction false} CancelledSubtreeWakes()
    ensures var calls := [Register(Descriptor(42, 1, None, None)), Cancel(CancelRequest(42, 1, Subtree))];
      var more := [Register(Descriptor(42, 2, Some(1), None))];
      1 in Run(calls) && Quiet(Run(calls), 1) && !Quiet(Run(calls + more), 1)
  {
    var d, q, child := Descriptor(42, 1, None, None), CancelRequest(42, 1, Subtree), Descriptor(42, 2, Some(1), None);
    var calls, more := [Register(d), Cancel(q)], [Register(child)];
    RunOne(Register(d));
    assert calls[..1] == [Register(d)];
    var ops := Run([Register(d)]);
    assert Accepts(ops, q);
    SubtreeCancelQuiets(ops, q);
    CancelIsExact(ops, q);
    assert Run(calls) == Step(ops, Cancel(q)).next;
    assert calls + more[..0] == calls;
    assert Up(Run(calls), 1, 0) == Some(1);
    assert JoinsAt(calls, more, 1, 0);
    FirstJoinWakes(calls, more, 1, 0);
    assert more[..1] == more;
  }

  // ---------------------------------------------------------------- refused calls

  /** A refused call changes the registry exactly when it is a scheduling call of the wrong message
      type for a live operation of the right session, carrying a new sequence number. */
  lemma {:induction false} RefusedCallChangesIff(ops: Registry, call: Call)
    requires Step(ops, call).result.Err?
    ensures Step(ops, call).next != ops <==>
      && call.ApplyScheduling? && !IsScheduling(call.messageType) && call.metadata.operationId in ops
      && var r := ops[call.metadata.operationId];
         && r.descriptor.sessionId == call.sessionId && !r.state.IsTerminal()
         && r.schedule.updateSequence != call.metadata.controlSequence
  {
    if call.ApplyScheduling? && call.metadata.operationId in ops {
      var r := ops[call.metadata.operationId];
      if r.descriptor.sessionId == call.sessionId && !r.state.IsTerminal() {
        assert Step(ops, call).next[call.metadata.operationId].schedule.updateSequence == call.metadata.controlSequence;
        if r.schedule.updateSequence == call.metadata.controlSequence {
          assert Rescheduled(r.schedule, call.messageType, call.metadata) == r.schedule;
        }
      }
    }
  }

  /** A PING passed as a scheduling update is refused and still overwrites the sequence number. */
  lemma {:induction false} RefusedSchedulingLeavesATrace()
    ensures var ops := Run([Register(Descriptor(42, 1, None, None))]);
      var o := Step(ops, ApplyScheduling(42, 0x20, Scheduling(1, 9, 0, 0, 0, 0)));
      o.result.Err? && o.next != ops
  {
    var d := Descriptor(42, 1, None, None);
    RunOne(Register(d));
    RefusedCallChangesIff(Run([Register(d)]), ApplyScheduling(42, 0x20, Scheduling(1, 9, 0, 0, 0, 0)));
  }
}

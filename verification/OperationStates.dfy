/** The operation state graph and what holds along every legal path through it. */
module OperationStates {
  import opened Wire

  datatype OperationState =
    Accepted | Running | Partial | WaitingTool | Superseded | Cancelled | Failed | Completed
  {
    function Code(): nat {
      match this
      case Accepted => 0 case Running => 1 case Partial => 2 case WaitingTool => 3
      case Superseded => 4 case Cancelled => 5 case Failed => 6 case Completed => 7
    }

    predicate IsTerminal() { Superseded? || Cancelled? || Failed? || Completed? }

    predicate CanTransitionTo(next: OperationState) {
      match this
      case Accepted => next.Running? || next.Cancelled? || next.Failed? || next.Superseded?
      case Running =>
        next.Partial? || next.WaitingTool? || next.Cancelled? || next.Failed? || next.Completed? || next.Superseded?
      case Partial =>
        next.Partial? || next.WaitingTool? || next.Cancelled? || next.Failed? || next.Completed? || next.Superseded?
      case WaitingTool => next.Running? || next.Cancelled? || next.Failed? || next.Superseded?
      case _ => false
    }
  }

  datatype ResultTerminalState = Success | ResultCancelled | Dropped | Error

  function FromOperationState(s: OperationState): Option<ResultTerminalState> {
    match s
    case Completed => Some(Success)
    case Cancelled => Some(ResultCancelled)
    case Superseded => Some(Dropped)
    case Failed => Some(Error)
    case _ => None
  }

  /** The transition graph, read by the state entered: nothing enters Accepted; Running is entered from
      Accepted or WaitingTool; Partial, WaitingTool and Completed from Running or Partial; and every
      state that is not terminal can be superseded, cancelled or failed. */
  predicate MayEnter(to: OperationState, from: OperationState) {
    match to
    case Accepted => false
    case Running => from == Accepted || from == WaitingTool
    case Partial | WaitingTool | Completed => from == Running || from == Partial
    case Superseded | Cancelled | Failed =>
      from == Accepted || from == Running || from == Partial || from == WaitingTool
  }

  /** The transition test is that graph, and the terminal states are those without a successor. */
  lemma {:induction false} TransitionGraph(from: OperationState, to: OperationState)
    ensures from.CanTransitionTo(to) <==> MayEnter(to, from)
    ensures from.IsTerminal() <==> forall s: OperationState :: !MayEnter(s, from)
    ensures from.Code() == to.Code() ==> from == to
  {
    assert MayEnter(Cancelled, from) <==> !from.IsTerminal();
  }

  /** A result state exists exactly for terminal operation states, and says how the operation ended. */
  lemma {:induction false} ResultStates(s: OperationState)
    ensures FromOperationState(s).Some? <==> s.IsTerminal()
    ensures FromOperationState(s) == Some(Success) <==> s == Completed
    ensures FromOperationState(s) == Some(ResultCancelled) <==> s == Cancelled
    ensures FromOperationState(s) == Some(Dropped) <==> s == Superseded
    ensures FromOperationState(s) == Some(Error) <==> s == Failed
  {
  }

  predicate LegalStep(p: seq<OperationState>, i: nat)
    requires i + 1 < |p|
  {
    p[i].CanTransitionTo(p[i + 1])
  }

  ghost predicate LegalPath(p: seq<OperationState>) {
    p != [] && forall i | 0 <= i < |p| - 1 :: LegalStep(p, i)
  }

  /** `b` is reached from `a` by zero or more legal transitions. */
  ghost predicate Follows(a: OperationState, b: OperationState) {
    exists p :: LegalPath(p) && p[0] == a && p[|p| - 1] == b
  }

  lemma {:induction false} FollowsSelf(a: OperationState)
    ensures Follows(a, a)
  {
    assert LegalPath([a]);
  }

  lemma {:induction false} FollowsThen(a: OperationState, b: OperationState, c: OperationState)
    requires Follows(a, b) && b.CanTransitionTo(c)
    ensures Follows(a, c)
  {
    var p :| LegalPath(p) && p[0] == a && p[|p| - 1] == b;
    var q := p + [c];
    forall i | 0 <= i < |q| - 1 ensures LegalStep(q, i) {
      if i < |p| - 1 { assert LegalStep(p, i); }
    }
    assert LegalPath(q);
  }

  lemma {:induction false} FollowsTransitive(a: OperationState, b: OperationState, c: OperationState)
    requires Follows(a, b) && Follows(b, c)
    ensures Follows(a, c)
  {
    var q :| LegalPath(q) && q[0] == b && q[|q| - 1] == c;
    FollowsAlong(a, q, |q| - 1);
  }

  lemma {:induction false} FollowsAlong(a: OperationState, q: seq<OperationState>, k: nat)
    requires LegalPath(q) && k < |q| && Follows(a, q[0])
    ensures Follows(a, q[k])
  {
    if k > 0 {
      FollowsAlong(a, q, k - 1);
      assert LegalStep(q, k - 1);
      FollowsThen(a, q[k - 1], q[k]);
    }
  }

  /** A terminal state can only be the last state of a legal path, and Accepted only its first. */
  lemma {:induction false} PathEnds(p: seq<OperationState>, i: nat)
    requires LegalPath(p) && i < |p|
    ensures p[i].IsTerminal() ==> i == |p| - 1
    ensures p[i].Accepted? ==> i == 0
  {
    if i < |p| - 1 { assert LegalStep(p, i); }
    if i > 0 { assert LegalStep(p, i - 1); }
  }

  /** A terminal state is followed only by itself. */
  lemma {:induction false} TerminalFollows(a: OperationState, b: OperationState)
    requires Follows(a, b) && a.IsTerminal()
    ensures b == a
  {
    var p :| LegalPath(p) && p[0] == a && p[|p| - 1] == b;
    PathEnds(p, 0);
  }

  /** On a path to Completed, every Accepted or WaitingTool state is followed later by Running:
      an operation completes only after running, and after running again since its last tool wait. */
  lemma {:induction false} CompletionNeedsRunning(p: seq<OperationState>, w: nat)
    requires LegalPath(p) && p[|p| - 1].Completed? && w < |p| && (p[w].Accepted? || p[w].WaitingTool?)
    ensures exists r :: w < r < |p| - 1 && p[r].Running?
  {
    assert LegalStep(p, w);
    var r := w + 1;
    if !p[r].Running? {
      PathEnds(p, r);
    } else {
      assert r < |p| - 1;
    }
  }
}

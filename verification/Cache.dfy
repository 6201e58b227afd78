/** Cache dependency checking: a scan over a list of states, proved to be a lookup in the map where
    the first state of each object wins. */
module Cache {
  import opened Wire

  type ObjectKind = k: int | 1 <= k <= 9 witness 1

  datatype ObjectId = ObjectId(namespace: u32, keyHi: u64, keyLo: u64, kind: ObjectKind)

  datatype Dependency = Dependency(objectId: ObjectId, requiredVersion: u64)

  datatype State = State(objectId: ObjectId, currentVersion: u64, invalidated: bool)

  datatype Failure = DependencyInvalid

  /** The map the state list denotes: earlier states override later ones. */
  function Index(states: seq<State>): map<ObjectId, State> {
    if states == [] then map[] else Index(states[1..])[states[0].objectId := states[0]]
  }

  predicate Met(d: Dependency, index: map<ObjectId, State>) {
    && d.objectId in index
    && !index[d.objectId].invalidated && index[d.objectId].currentVersion == d.requiredVersion
  }

  ghost predicate AllMet(ds: seq<Dependency>, index: map<ObjectId, State>) { forall d | d in ds :: Met(d, index) }

  lemma {:induction false} NotBefore(states: seq<State>, k: nat, id: ObjectId)
    requires k <= |states| && forall i | 0 <= i < k :: states[i].objectId != id
    ensures id in Index(states) <==> id in Index(states[k..])
    ensures id in Index(states) ==> Index(states)[id] == Index(states[k..])[id]
    decreases k
  {
    if k == 0 {
      assert states[0..] == states;
    } else {
      NotBefore(states, k - 1, id);
      assert states[k - 1..][1..] == states[k..];
    }
  }

  method FindState(states: seq<State>, id: ObjectId) returns (r: Option<State>)
    ensures r == if id in Index(states) then Some(Index(states)[id]) else None
  {
    for i := 0 to |states|
      invariant forall j | 0 <= j < i :: states[j].objectId != id
    {
      if states[i].objectId == id {
        NotBefore(states, i, id);
        return Some(states[i]);
      }
    }
    NotBefore(states, |states|, id);
    r := None;
  }

  /** Accepts exactly when every dependency is live at its version in the first-wins map. */
  method ValidateDependencies(dependencies: seq<Dependency>, states: seq<State>) returns (r: Result<(), Failure>)
    ensures r.Ok? <==> AllMet(dependencies, Index(states))
  {
    for i := 0 to |dependencies|
      invariant forall j | 0 <= j < i :: Met(dependencies[j], Index(states))
    {
      var d := dependencies[i];
      assert d in dependencies;
      var state := FindState(states, d.objectId);
      assert state.None? ==> !Met(d, Index(states));
      if state.None? { return Err(DependencyInvalid); }
      if state.value.invalidated || state.value.currentVersion != d.requiredVersion { return Err(DependencyInvalid); }
    }
    r := Ok(());
  }

  /** State `i` is the first one of its object. */
  ghost predicate FirstOf(states: seq<State>, i: nat) {
    i < |states| && forall j | 0 <= j < i :: states[j].objectId != states[i].objectId
  }

  lemma {:induction false} IndexIff(states: seq<State>, id: ObjectId, state: State)
    ensures id in Index(states) && Index(states)[id] == state <==>
      exists i: nat :: FirstOf(states, i) && states[i] == state && state.objectId == id
    decreases |states|
  {
    if states != [] {
      var rest := states[1..];
      IndexIff(rest, id, state);
      if states[0].objectId == id {
        assert FirstOf(states, 0);
      } else {
        if i: nat :| FirstOf(rest, i) && rest[i] == state && state.objectId == id {
          assert FirstOf(states, i + 1) by {
            forall j | 0 <= j < i + 1 ensures states[j].objectId != id { if j > 0 { assert rest[j - 1] == states[j]; } }
          }
        }
        if i: nat :| FirstOf(states, i) && states[i] == state && state.objectId == id {
          assert FirstOf(rest, i - 1) by { assert forall j | 0 <= j < i - 1 :: rest[j] == states[j + 1]; }
        }
      }
    }
  }

  /** A dependency is met exactly when the first state of its object is live at the required version. */
  lemma {:induction false} MetIff(d: Dependency, states: seq<State>)
    ensures Met(d, Index(states)) <==>
      exists i: nat :: FirstOf(states, i) && states[i].objectId == d.objectId && !states[i].invalidated
        && states[i].currentVersion == d.requiredVersion
  {
    if d.objectId in Index(states) {
      var state := Index(states)[d.objectId];
      IndexIff(states, d.objectId, state);
      forall i: nat | FirstOf(states, i) && states[i].objectId == d.objectId ensures states[i] == state {
        IndexIff(states, d.objectId, states[i]);
      }
    } else {
      forall i: nat | FirstOf(states, i) ensures states[i].objectId != d.objectId {
        IndexIff(states, d.objectId, states[i]);
      }
    }
  }

  /** The verdict depends on which dependencies are listed, not on their order or repetition. */
  lemma {:induction false} OrderIrrelevant(ds: seq<Dependency>, es: seq<Dependency>, index: map<ObjectId, State>)
    requires (set d | d in ds) == (set e | e in es)
    ensures AllMet(ds, index) <==> AllMet(es, index)
  {
    var all := set d | d in ds;
    assert forall d :: d in ds <==> d in all;
    assert forall d :: d in es <==> d in all;
  }

  /** A concatenation is accepted exactly when both parts are. */
  lemma {:induction false} Distributes(ds: seq<Dependency>, es: seq<Dependency>, index: map<ObjectId, State>)
    ensures AllMet(ds + es, index) <==> AllMet(ds, index) && AllMet(es, index)
  {
    assert forall d :: d in ds + es <==> d in ds || d in es;
  }

  lemma {:induction false} IndexConcat(states: seq<State>, more: seq<State>)
    ensures Index(states + more) == Index(more) + Index(states)
  {
    if states == [] {
      assert states + more == more;
    } else {
      IndexConcat(states[1..], more);
      assert (states + more)[1..] == states[1..] + more;
    }
  }

  /** States reported later for objects that are already known change no verdict. */
  lemma {:induction false} LaterStatesIgnored(ds: seq<Dependency>, states: seq<State>, more: seq<State>)
    requires forall d | d in ds :: d.objectId in Index(states)
    ensures AllMet(ds, Index(states + more)) <==> AllMet(ds, Index(states))
  {
    IndexConcat(states, more);
  }
}

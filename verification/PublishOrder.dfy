/** The crate publish order: a layered topological sort of the workspace dependencies. */
module PublishOrder {
  import opened Wire
  import opened Lex

  type Name = seq<nat>
  type Graph = map<Name, set<Name>>

  /** Every dependency is itself one of the crates to publish. */
  predicate Closed(deps: Graph) { forall n | n in deps :: deps[n] <= deps.Keys }

  // ---------------------------------------------------------------- chains, levels and cycles

  /** A chain of `k` dependency links starts at `n`. */
  predicate Deep(deps: Graph, n: Name, k: nat)
    decreases k
  {
    n in deps && (k == 0 || exists m | m in deps[n] :: Deep(deps, m, k - 1))
  }

  /** The longest dependency chain from `n` has `k` links. */
  predicate HasLevel(deps: Graph, n: Name, k: nat) { Deep(deps, n, k) && !Deep(deps, n, k + 1) }

  predicate Link(deps: Graph, p: seq<Name>, i: nat)
    requires i + 1 < |p|
  {
    p[i] in deps && p[i + 1] in deps[p[i]]
  }

  ghost predicate Path(deps: Graph, p: seq<Name>) {
    p != [] && p[0] in deps && forall i | 0 <= i < |p| - 1 :: Link(deps, p, i)
  }

  ghost predicate Cycle(deps: Graph, p: seq<Name>) { Path(deps, p) && |p| >= 2 && p[0] == p[|p| - 1] }

  ghost predicate HasCycle(deps: Graph) { exists p :: Cycle(deps, p) }

  /** A dependency path from `n` visits some crate twice. */
  ghost predicate Revisits(deps: Graph, p: seq<Name>, i: nat, j: nat) {
    Path(deps, p) && i < j < |p| && p[i] == p[j]
  }

  ghost predicate ReachesCycle(deps: Graph, n: Name) {
    exists p, i: nat, j: nat :: Revisits(deps, p, i, j) && p[0] == n
  }

  /** Dependency chains of every length start at `n`. */
  ghost predicate Bottomless(deps: Graph, n: Name) { forall k: nat :: Deep(deps, n, k) }

  lemma {:induction false} DeepShorter(deps: Graph, n: Name, k: nat)
    requires Deep(deps, n, k + 1)
    ensures Deep(deps, n, k)
    decreases k
  {
    if k > 0 {
      var m :| m in deps[n] && Deep(deps, m, k);
      DeepShorter(deps, m, k - 1);
    }
  }

  lemma {:induction false} DeepAll(deps: Graph, n: Name, j: nat, k: nat)
    requires Deep(deps, n, k) && j <= k
    ensures Deep(deps, n, j)
    decreases k
  {
    if j < k {
      DeepShorter(deps, n, k - 1);
      DeepAll(deps, n, j, k - 1);
    }
  }

  lemma {:induction false} DeepPath(deps: Graph, n: Name, k: nat) returns (p: seq<Name>)
    requires Closed(deps) && Deep(deps, n, k)
    ensures Path(deps, p) && p[0] == n && |p| == k + 1
    ensures forall i | 0 <= i < |p| :: p[i] in deps
    decreases k
  {
    if k == 0 {
      p := [n];
    } else {
      var m :| m in deps[n] && Deep(deps, m, k - 1);
      var q := DeepPath(deps, m, k - 1);
      p := [n] + q;
      forall i | 0 <= i < |p| - 1 ensures Link(deps, p, i) {
        if i > 0 { assert Link(deps, q, i - 1); }
      }
    }
  }

  /** A list of distinct members of a set is no longer than the set. */
  lemma {:induction false} Pigeonhole(p: seq<Name>, s: set<Name>)
    requires (forall i | 0 <= i < |p| :: p[i] in s) && forall i, j | 0 <= i < j < |p| :: p[i] != p[j]
    ensures |p| <= |s|
    decreases |p|
  {
    if p != [] {
      var n := |p| - 1;
      Pigeonhole(p[..n], s - {p[n]});
    }
  }

  lemma {:induction false} DeepRevisits(deps: Graph, n: Name)
    requires Closed(deps) && Deep(deps, n, |deps|)
    ensures ReachesCycle(deps, n)
  {
    var p := DeepPath(deps, n, |deps|);
    if forall i, j | 0 <= i < j < |p| :: p[i] != p[j] {
      Pigeonhole(p, deps.Keys);
    } else {
      var i: nat, j: nat :| i < j < |p| && p[i] == p[j];
      assert Revisits(deps, p, i, j);
    }
  }

  lemma {:induction false} RevisitDeep(deps: Graph, p: seq<Name>, i: nat, j: nat, t: nat, k: nat)
    requires Revisits(deps, p, i, j) && t <= j
    ensures Deep(deps, p[t], k)
    decreases k
  {
    if t < j {
      assert Link(deps, p, t);
      if k > 0 { RevisitDeep(deps, p, i, j, t + 1, k - 1); }
    } else {
      assert Link(deps, p, i);
      if k > 0 { RevisitDeep(deps, p, i, j, i + 1, k - 1); }
    }
  }

  /** A crate reaches a cycle exactly when it has dependency chains of every length. */
  lemma {:induction false} CycleIsBottomless(deps: Graph, n: Name)
    requires Closed(deps)
    ensures ReachesCycle(deps, n) <==> Bottomless(deps, n)
  {
    if ReachesCycle(deps, n) {
      var p, i: nat, j: nat :| Revisits(deps, p, i, j) && p[0] == n;
      forall k: nat ensures Deep(deps, n, k) { RevisitDeep(deps, p, i, j, 0, k); }
    }
    if Bottomless(deps, n) {
      assert Deep(deps, n, |deps|);
      DeepRevisits(deps, n);
    }
  }

  lemma {:induction false} RevisitCycle(deps: Graph, n: Name)
    requires ReachesCycle(deps, n)
    ensures HasCycle(deps)
  {
    var p, i: nat, j: nat :| Revisits(deps, p, i, j) && p[0] == n;
    var q := p[i..j + 1];
    forall t | 0 <= t < |q| - 1 ensures Link(deps, q, t) { assert Link(deps, p, i + t); }
    assert Link(deps, q, 0);
    assert Cycle(deps, q);
  }

  // ---------------------------------------------------------------- the layered order

  /** `a` comes before `b`: at a lower level, or at the same level and earlier in the alphabet. */
  ghost predicate Before(deps: Graph, a: Name, b: Name) {
    exists k: nat, l: nat :: HasLevel(deps, a, k) && HasLevel(deps, b, l) && (k < l || (k == l && Less(a, b)))
  }

  ghost predicate Layered(deps: Graph, order: seq<Name>) {
    forall i, j | 0 <= i < j < |order| :: Before(deps, order[i], order[j])
  }

  /** The order lists each crate of the graph once, by level and then by name. */
  ghost predicate IsPublishOrder(deps: Graph, order: seq<Name>) {
    && (forall n :: n in order <==> n in deps) && Layered(deps, order)
    && forall n | n in order :: exists k: nat :: HasLevel(deps, n, k)
  }

  lemma {:induction false} LevelUnique(deps: Graph, n: Name, k: nat, l: nat)
    requires HasLevel(deps, n, k) && HasLevel(deps, n, l)
    ensures k == l
  {
    if k < l { DeepAll(deps, n, k + 1, l); }
    if l < k { DeepAll(deps, n, l + 1, k); }
  }

  lemma {:induction false} BeforeAsymmetric(deps: Graph, a: Name, b: Name)
    requires Before(deps, a, b)
    ensures a != b && !Before(deps, b, a)
  {
    var k: nat, l: nat :| HasLevel(deps, a, k) && HasLevel(deps, b, l) && (k < l || (k == l && Less(a, b)));
    Irreflexive(a);
    if a == b { LevelUnique(deps, a, k, l); }
    if Before(deps, b, a) {
      var l', k' :| HasLevel(deps, b, l') && HasLevel(deps, a, k') && (l' < k' || (l' == k' && Less(b, a)));
      LevelUnique(deps, a, k, k');
      LevelUnique(deps, b, l, l');
      if Less(a, b) { Asymmetric(a, b); }
    }
  }

  /** A publish order names each crate once. */
  lemma {:induction false} OrderHasNoDuplicates(deps: Graph, order: seq<Name>)
    requires Layered(deps, order)
    ensures forall i, j | 0 <= i < j < |order| :: order[i] != order[j]
  {
    forall i, j | 0 <= i < j < |order| ensures order[i] != order[j] { BeforeAsymmetric(deps, order[i], order[j]); }
  }

  lemma {:induction false} DependencyIsLower(deps: Graph, n: Name, m: Name, k: nat, l: nat)
    requires n in deps && m in deps[n] && HasLevel(deps, n, k) && HasLevel(deps, m, l)
    ensures l < k
  {
    if l >= k { DeepAll(deps, m, k, l); }
  }

  lemma {:induction false} NoSelfDependency(deps: Graph, n: Name)
    requires exists k: nat :: HasLevel(deps, n, k)
    ensures n in deps && n !in deps[n]
  {
    var k: nat :| HasLevel(deps, n, k);
    assert !Deep(deps, n, k + 1);
  }

  /** In a publish order every dependency comes earlier. */
  lemma {:induction false} DependenciesComeFirst(deps: Graph, order: seq<Name>, i: nat, j: nat)
    requires IsPublishOrder(deps, order) && i < |order| && j < |order|
    requires order[i] in deps && order[j] in deps[order[i]]
    ensures j < i
  {
    assert order[i] in order;
    NoSelfDependency(deps, order[i]);
    if i < j {
      var k: nat, l: nat :| HasLevel(deps, order[i], k) && HasLevel(deps, order[j], l)
        && (k < l || (k == l && Less(order[i], order[j])));
      DependencyIsLower(deps, order[i], order[j], k, l);
    }
  }

  /** A graph has at most one publish order, so the result cannot depend on how the workspace
      lists its packages. */
  lemma {:induction false} PublishOrderUnique(deps: Graph, a: seq<Name>, b: seq<Name>)
    requires Layered(deps, a) && Layered(deps, b) && forall n :: n in a <==> n in b
    ensures a == b
    decreases |a|
  {
    FirstIsMember(b);
    if a != [] {
      assert a[0] in a;
      var k :| 0 <= k < |b| && b[k] == a[0];
      var m :| 0 <= m < |a| && a[m] == b[0];
      if k > 0 && m > 0 { BeforeAsymmetric(deps, b[0], b[k]); }
      assert a[0] == b[0];
      OrderHasNoDuplicates(deps, a);
      OrderHasNoDuplicates(deps, b);
      forall n ensures n in a[1..] <==> n in b[1..] {
        assert n in a[1..] <==> n in a && n != a[0];
        assert n in b[1..] <==> n in b && n != b[0];
      }
      PublishOrderUnique(deps, a[1..], b[1..]);
    }
  }

  // ---------------------------------------------------------------- the resolver

  /** The names of a set in alphabetical order. */
  method SortNames(names: set<Name>) returns (r: seq<Name>)
    ensures Sorted(r) && forall n :: n in r <==> n in names
  {
    r := [];
    var todo := names;
    while todo != {}
      invariant todo <= names && Sorted(r) && forall n :: n in r <==> n in names - todo
      decreases todo
    {
      var x :| x in todo;
      var j := 0;
      while j < |r| && Less(r[j], x)
        invariant 0 <= j <= |r| && forall k | 0 <= k < j :: Less(r[k], x)
      {
        j := j + 1;
      }
      InsertSorted(r, x, j);
      assert forall n :: n in r[..j] + [x] + r[j..] <==> n == x || n in r;
      r, todo := r[..j] + [x] + r[j..], todo - {x};
    }
  }

  lemma {:induction false} InsertSorted(r: seq<Name>, x: Name, j: nat)
    requires Sorted(r) && x !in r && j <= |r| && (forall k | 0 <= k < j :: Less(r[k], x))
    requires j < |r| ==> !Less(r[j], x)
    ensures Sorted(r[..j] + [x] + r[j..])
  {
    forall k | j <= k < |r| ensures Less(x, r[k]) {
      Total(r[j], x);
      if k > j { Transitive(x, r[j], r[k]); }
    }
  }

  /** After `round` rounds the crates with shorter chains are published in order and those with a
      chain of `round` links remain. */
  ghost predicate Rounds(deps: Graph, order: seq<Name>, remaining: set<Name>, round: nat) {
    && (forall n :: n in remaining <==> Deep(deps, n, round))
    && (forall n :: n in order <==> n in deps && n !in remaining)
    && (forall n | n in order :: exists k: nat :: k < round && HasLevel(deps, n, k))
    && Layered(deps, order)
  }

  /** Publish, round by round, every crate whose dependencies are all published. */
  method Resolve(deps: Graph) returns (r: Result<seq<Name>, seq<Name>>)
    requires Closed(deps)
    ensures r.Ok? <==> !HasCycle(deps)
    ensures r.Ok? ==> IsPublishOrder(deps, r.value)
    ensures r.Err? ==> Sorted(r.error) && forall n :: n in r.error <==> ReachesCycle(deps, n)
  {
    var order: seq<Name> := [];
    var remaining := deps.Keys;
    ghost var round: nat := 0;
    while remaining != {}
      invariant remaining <= deps.Keys && Rounds(deps, order, remaining, round)
      decreases remaining
    {
      var published := set n | n in order;
      var ready := set n | n in remaining && deps[n] <= published;
      ReadyHasLevel(deps, remaining, published, ready, round);
      var names := SortNames(ready);
      if names == [] {
        NothingReady(deps, names, ready, round);
        StuckOnCycles(deps, remaining, round);
        var stuck := SortNames(remaining);
        return Err(stuck);
      }
      NextRound(deps, order, remaining, names, ready, round);
      assert names[0] in names;
      order := order + names;
      remaining := remaining - ready;
      round := round + 1;
    }
    Finished(deps, order, round);
    r := Ok(order);
  }

  lemma {:induction false} NothingReady(deps: Graph, names: seq<Name>, ready: set<Name>, round: nat)
    requires names == [] && (forall n :: n in names <==> n in ready)
    requires forall n :: n in ready <==> HasLevel(deps, n, round)
    ensures forall n :: !HasLevel(deps, n, round)
  {
  }

  lemma {:induction false} NextRound(
    deps: Graph, order: seq<Name>, remaining: set<Name>, names: seq<Name>, ready: set<Name>, round: nat)
    requires Rounds(deps, order, remaining, round) && Sorted(names) && (forall n :: n in names <==> n in ready)
    requires forall n :: n in ready <==> HasLevel(deps, n, round)
    ensures Rounds(deps, order + names, remaining - ready, round + 1)
  {
    ExtendLayered(deps, order, names, round);
    forall n ensures n in remaining - ready <==> Deep(deps, n, round + 1) {
      if Deep(deps, n, round + 1) { DeepShorter(deps, n, round); }
    }
    forall n | n in order + names ensures exists k: nat :: k < round + 1 && HasLevel(deps, n, k) {
      if n in names { assert HasLevel(deps, n, round); }
    }
  }

  /** When nothing remains the order is complete, and there was no cycle. */
  lemma {:induction false} Finished(deps: Graph, order: seq<Name>, round: nat)
    requires Rounds(deps, order, {}, round)
    ensures IsPublishOrder(deps, order) && !HasCycle(deps)
  {
    if HasCycle(deps) {
      var p :| Cycle(deps, p);
      assert Revisits(deps, p, 0, |p| - 1);
      RevisitDeep(deps, p, 0, |p| - 1, 0, round);
    }
  }

  /** The crates that are ready in a round are those whose longest chain has that many links. */
  lemma {:induction false} ReadyHasLevel(
    deps: Graph, remaining: set<Name>, published: set<Name>, ready: set<Name>, round: nat)
    requires Closed(deps) && remaining <= deps.Keys && forall n :: n in remaining <==> Deep(deps, n, round)
    requires forall n :: n in published <==> n in deps && n !in remaining
    requires ready == set n | n in remaining && deps[n] <= published
    ensures forall n :: n in ready <==> HasLevel(deps, n, round)
  {
    forall n ensures n in ready <==> HasLevel(deps, n, round) {
      if n in remaining {
        if deps[n] <= published {
          assert !Deep(deps, n, round + 1);
        } else {
          var m :| m in deps[n] && m !in published;
          assert Deep(deps, m, round);
          assert Deep(deps, n, round + 1);
        }
      }
    }
  }

  lemma {:induction false} ExtendLayered(deps: Graph, order: seq<Name>, names: seq<Name>, round: nat)
    requires Layered(deps, order) && Sorted(names)
    requires forall n | n in order :: exists k: nat :: k < round && HasLevel(deps, n, k)
    requires forall n | n in names :: HasLevel(deps, n, round)
    ensures Layered(deps, order + names)
  {
    var all := order + names;
    forall i, j | 0 <= i < j < |all| ensures Before(deps, all[i], all[j]) {
      if j < |order| {
        assert Before(deps, order[i], order[j]);
      } else {
        assert all[j] in names && HasLevel(deps, all[j], round);
        if i < |order| {
          assert all[i] in order;
        } else {
          assert all[i] in names && HasLevel(deps, all[i], round);
        }
      }
    }
  }

  /** When no remaining crate is ready, the remaining crates are those that reach a cycle. */
  lemma {:induction false} StuckOnCycles(deps: Graph, remaining: set<Name>, round: nat)
    requires Closed(deps) && remaining != {} && forall n :: n in remaining <==> Deep(deps, n, round)
    requires forall n :: !HasLevel(deps, n, round)
    ensures HasCycle(deps) && forall n :: n in remaining <==> ReachesCycle(deps, n)
  {
    forall n ensures n in remaining <==> ReachesCycle(deps, n) {
      CycleIsBottomless(deps, n);
      if n in remaining {
        forall k: nat ensures Deep(deps, n, k) { StuckDeep(deps, n, round, k); }
      } else {
        assert !Deep(deps, n, round);
      }
    }
    var n :| n in remaining;
    RevisitCycle(deps, n);
  }

  lemma {:induction false} StuckDeep(deps: Graph, n: Name, round: nat, k: nat)
    requires Deep(deps, n, round) && forall m :: !HasLevel(deps, m, round)
    ensures Deep(deps, n, k)
    decreases k
  {
    if k <= round {
      DeepAll(deps, n, k, round);
    } else {
      assert !HasLevel(deps, n, round);
      var m :| m in deps[n] && Deep(deps, m, round);
      StuckDeep(deps, m, round, k - 1);
    }
  }

  // ---------------------------------------------------------------- from Cargo metadata to the graph

  datatype Dependency = Dependency(name: Name, isDev: bool)
  datatype Package = Package(id: Name, name: Name, registries: Option<set<Name>>, dependencies: seq<Dependency>)
  datatype Metadata = Metadata(packages: seq<Package>, members: set<Name>)

  const CRATES_IO: Name := [99, 114, 97, 116, 101, 115, 45, 105, 111]

  predicate Publishable(m: Metadata, p: Package) {
    p.id in m.members && (p.registries.None? || CRATES_IO in p.registries.value)
  }

  /** The first `k` packages as a dictionary by id: keys in order of first insertion, last value wins. */
  datatype Dictionary = Dictionary(keys: seq<Name>, values: map<Name, Package>)

  function Insert(d: Dictionary, p: Package): Dictionary {
    Dictionary(if p.id in d.values then d.keys else d.keys + [p.id], d.values[p.id := p])
  }

  function ById(m: Metadata, k: nat): (d: Dictionary)
    requires k <= |m.packages|
    ensures WellFormed(d)
    ensures forall id | id in d.values ::
      d.values[id].id == id && Publishable(m, d.values[id]) && d.values[id] in m.packages
  {
    if k == 0 then Dictionary([], map[])
    else if Publishable(m, m.packages[k - 1]) then Insert(ById(m, k - 1), m.packages[k - 1])
    else ById(m, k - 1)
  }

  function NamesOf(d: Dictionary): set<Name> { set id | id in d.values :: d.values[id].name }

  function Restricted(p: Package, names: set<Name>): set<Name> {
    set d | d in p.dependencies && !d.isDev && d.name in names :: d.name
  }

  function NameAt(d: Dictionary, i: nat): Name
    requires i < |d.keys| && WellFormed(d)
  {
    d.values[d.keys[i]].name
  }

  ghost predicate WellFormed(d: Dictionary) { forall id :: id in d.keys <==> id in d.values }

  function NamesUpTo(d: Dictionary, k: nat): set<Name>
    requires k <= |d.keys| && WellFormed(d)
  {
    set i: nat | 0 <= i < k :: NameAt(d, i)
  }

  /** The dependency dictionary over the first `k` packages of `d`, last value per name wins. */
  function ByName(d: Dictionary, names: set<Name>, k: nat): (g: Graph)
    requires k <= |d.keys| && WellFormed(d)
    ensures g.Keys == NamesUpTo(d, k)
    ensures forall n | n in g :: g[n] <= names
  {
    if k == 0 then map[]
    else
      var p := d.values[d.keys[k - 1]];
      assert p.name == NameAt(d, k - 1);
      ByName(d, names, k - 1)[p.name := Restricted(p, names)]
  }

  lemma {:induction false} AllNames(d: Dictionary)
    requires WellFormed(d)
    ensures NamesOf(d) == NamesUpTo(d, |d.keys|)
  {
    var all := NamesUpTo(d, |d.keys|);
    forall id | id in d.values ensures d.values[id].name in all {
      var i :| 0 <= i < |d.keys| && d.keys[i] == id;
      assert NameAt(d, i) in all;
    }
  }

  lemma {:induction false} ByNameHolds(d: Dictionary, names: set<Name>, k: nat, i: nat)
    requires i < k <= |d.keys| && WellFormed(d)
    requires forall j | 0 <= j < k && NameAt(d, j) == NameAt(d, i) :: d.values[d.keys[j]] == d.values[d.keys[i]]
    ensures NameAt(d, i) in ByName(d, names, k)
    ensures ByName(d, names, k)[NameAt(d, i)] == Restricted(d.values[d.keys[i]], names)
  {
    assert NameAt(d, i) in NamesUpTo(d, k);
    var p := d.values[d.keys[k - 1]];
    assert ByName(d, names, k) == ByName(d, names, k - 1)[p.name := Restricted(p, names)];
    if NameAt(d, k - 1) != NameAt(d, i) {
      ByNameHolds(d, names, k - 1, i);
    } else {
      assert p == d.values[d.keys[i]];
    }
  }

  /** The restricted dependency graph of the publishable workspace packages. */
  function Dependencies(m: Metadata): (g: Graph)
    ensures Closed(g)
    ensures g.Keys == NamesOf(ById(m, |m.packages|))
  {
    var d := ById(m, |m.packages|);
    AllNames(d);
    ByName(d, NamesOf(d), |d.keys|)
  }

  ghost predicate DistinctPackages(m: Metadata) {
    forall p, q | p in m.packages && q in m.packages && GoesToCratesIo(m, p) && GoesToCratesIo(m, q)
      && (p.id == q.id || p.name == q.name) :: p == q
  }

  lemma {:induction false} ByIdHolds(m: Metadata, k: nat, i: nat)
    requires DistinctPackages(m) && i < k <= |m.packages| && Publishable(m, m.packages[i])
    ensures var p := m.packages[i]; p.id in ById(m, k).values && ById(m, k).values[p.id] == p
  {
    if i < k - 1 {
      ByIdHolds(m, k - 1, i);
      var p, q := m.packages[i], m.packages[k - 1];
      assert p in m.packages && q in m.packages;
    }
  }

  /** Package `i` is the last of the first `k` with its id that goes to crates-io. */
  ghost predicate LastWithId(m: Metadata, k: nat, i: nat)
    requires k <= |m.packages|
  {
    i < k && forall j | i < j < k :: m.packages[j].id == m.packages[i].id ==> !GoesToCratesIo(m, m.packages[j])
  }

  /** Of packages with the same id the last one counts. */
  lemma {:induction false} LastPackageCounts(m: Metadata, k: nat, id: Name) returns (i: nat)
    requires k <= |m.packages| && id in ById(m, k).values
    ensures LastWithId(m, k, i) && m.packages[i].id == id && m.packages[i] == ById(m, k).values[id]
  {
    var p := m.packages[k - 1];
    if Publishable(m, p) && p.id == id {
      i := k - 1;
    } else {
      i := LastPackageCounts(m, k - 1, id);
    }
  }

  /** Key `i` is the last of the first `k` with its package name. */
  ghost predicate LastWithName(d: Dictionary, k: nat, i: nat)
    requires k <= |d.keys| && WellFormed(d)
  {
    i < k && forall j | i < j < k :: NameAt(d, j) != NameAt(d, i)
  }

  /** Of packages with the same name the last one in order of first listing counts, with its dependencies
      that are not for development and are in the graph. */
  lemma {:induction false} LastNameCounts(d: Dictionary, names: set<Name>, k: nat, n: Name) returns (i: nat)
    requires k <= |d.keys| && WellFormed(d) && n in ByName(d, names, k)
    ensures LastWithName(d, k, i) && NameAt(d, i) == n
    ensures ByName(d, names, k)[n]
      == set x | x in d.values[d.keys[i]].dependencies && !x.isDev && x.name in names :: x.name
    decreases k
  {
    if NameAt(d, k - 1) == n {
      i := k - 1;
    } else {
      i := LastNameCounts(d, names, k - 1, n);
    }
  }

  /** A workspace member that names no registries, or names crates-io among them. */
  predicate GoesToCratesIo(m: Metadata, p: Package) {
    && p.id in m.members
    && (p.registries.Some? ==>
          ['c' as int, 'r' as int, 'a' as int, 't' as int, 'e' as int, 's' as int, '-' as int, 'i' as int, 'o' as int]
            in p.registries.value)
  }

  /** The graph has one node for each name of a package that goes to crates-io. */
  lemma {:induction false} GraphNodes(m: Metadata, n: Name)
    requires DistinctPackages(m)
    ensures n in Dependencies(m) <==> exists p :: p in m.packages && GoesToCratesIo(m, p) && p.name == n
  {
    if n in Dependencies(m) {
      GraphNames(m, n);
      var p :| p in m.packages && Publishable(m, p) && p.name == n;
      assert GoesToCratesIo(m, p);
    }
    if p :| p in m.packages && GoesToCratesIo(m, p) && p.name == n {
      assert Publishable(m, p);
      GraphOfPackages(m, p);
    }
  }

  /** When ids and names are unique, as Cargo guarantees, each publishable package is mapped to its
      non-dev dependencies that are publishable workspace packages. */
  lemma {:induction false} GraphOfPackages(m: Metadata, p: Package)
    requires DistinctPackages(m) && p in m.packages && GoesToCratesIo(m, p)
    ensures var g := Dependencies(m);
      p.name in g && g[p.name] == set d | d in p.dependencies && !d.isDev && d.name in g.Keys :: d.name
  {
    assert Publishable(m, p);
    var d := ById(m, |m.packages|);
    var i :| 0 <= i < |m.packages| && m.packages[i] == p;
    ByIdHolds(m, |m.packages|, i);
    var k :| 0 <= k < |d.keys| && d.keys[k] == p.id;
    forall j | 0 <= j < |d.keys| && NameAt(d, j) == NameAt(d, k) ensures d.values[d.keys[j]] == d.values[d.keys[k]] {
      assert d.values[d.keys[j]] in m.packages;
    }
    ByNameHolds(d, NamesOf(d), |d.keys|, k);
  }

  lemma {:induction false} GraphNames(m: Metadata, n: Name)
    requires n in Dependencies(m)
    ensures exists p :: p in m.packages && Publishable(m, p) && p.name == n
  {
    var d := ById(m, |m.packages|);
    var id :| id in d.values && d.values[id].name == n;
    assert d.values[id] in m.packages;
  }

  /** The graph, and with it the publish order, does not depend on the order in which the metadata
      lists its packages. */
  lemma {:induction false} ListingOrderIrrelevant(m: Metadata, w: Metadata)
    requires DistinctPackages(m) && m.members == w.members && forall p :: p in m.packages <==> p in w.packages
    ensures Dependencies(m) == Dependencies(w)
  {
    DistinctSame(m, w);
    SameNames(m, w);
    SameNames(w, m);
    var g, h := Dependencies(m), Dependencies(w);
    assert g.Keys == h.Keys;
    forall n | n in g ensures g[n] == h[n] { SameDependencies(m, w, n); }
  }

  lemma {:induction false} DistinctSame(m: Metadata, w: Metadata)
    requires DistinctPackages(m) && m.members == w.members && forall p :: p in m.packages <==> p in w.packages
    ensures DistinctPackages(w)
  {
  }

  lemma {:induction false} SameDependencies(m: Metadata, w: Metadata, n: Name)
    requires DistinctPackages(m) && DistinctPackages(w) && m.members == w.members
    requires forall p :: p in m.packages <==> p in w.packages
    requires Dependencies(m).Keys == Dependencies(w).Keys && n in Dependencies(m)
    ensures Dependencies(m)[n] == Dependencies(w)[n]
  {
    GraphNames(m, n);
    var p :| p in m.packages && Publishable(m, p) && p.name == n;
    GraphOfPackages(m, p);
    GraphOfPackages(w, p);
  }

  lemma {:induction false} SameNames(m: Metadata, w: Metadata)
    requires DistinctPackages(w) && m.members == w.members && forall p :: p in m.packages <==> p in w.packages
    ensures Dependencies(m).Keys <= Dependencies(w).Keys
  {
    forall n | n in Dependencies(m) ensures n in Dependencies(w) {
      GraphNames(m, n);
      var p :| p in m.packages && Publishable(m, p) && p.name == n;
      GraphOfPackages(w, p);
    }
  }

  method ResolvePublishOrder(m: Metadata) returns (r: Result<seq<Name>, seq<Name>>)
    ensures r.Ok? <==> !HasCycle(Dependencies(m))
    ensures r.Ok? ==> IsPublishOrder(Dependencies(m), r.value)
    ensures r.Err? ==> Sorted(r.error) && forall n :: n in r.error <==> ReachesCycle(Dependencies(m), n)
  {
    r := Resolve(Dependencies(m));
  }

  /** A crate nothing depends on is on no cycle. */
  lemma {:induction false} OffCycle(deps: Graph, a: Name)
    requires forall n | n in deps :: a !in deps[n]
    ensures !exists p :: Cycle(deps, p) && a in p
  {
    forall q | Cycle(deps, q) ensures a !in q {
      forall i | 0 <= i < |q| ensures q[i] != a {
        assert Link(deps, q, if i > 0 then i - 1 else |q| - 2);
      }
    }
  }

  /** The cycle report also names crates that are on no cycle but depend on one. */
  lemma {:induction false} ReportNamesDependants()
    ensures var a, b, c: Name := [97], [98], [99];
      var deps: Graph := map[a := {b}, b := {c}, c := {b}];
      Closed(deps) && ReachesCycle(deps, a) && !exists p :: Cycle(deps, p) && a in p
  {
    var a, b, c: Name := [97], [98], [99];
    var deps: Graph := map[a := {b}, b := {c}, c := {b}];
    var p := [a, b, c, b];
    assert Link(deps, p, 0) && Link(deps, p, 1) && Link(deps, p, 2);
    assert Revisits(deps, p, 1, 3);
    OffCycle(deps, a);
  }
}

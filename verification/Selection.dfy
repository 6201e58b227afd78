/** Ranking of successfully probed transports.

    The comparison of two candidates looks at probe metrics, then at cost, then at preferences. Cost
    counts only between candidates of one non-zero cost model, so the comparison need not be
    transitive; this module proves exactly when a ranking exists. */
module Selection {
  import opened Wire
  import opened Lex

  datatype Ordering = Before | Same | After {
    function Then(next: Ordering): Ordering { if Same? then next else this }
  }

  datatype Candidate = Candidate(
    successCount: u32, throughput: u64, rtt: u64, costModel: u16, costUnits: u64, preferenceRank: u32,
    transport: u32, id: seq<byte>)

  function Compare(a: int, b: int): Ordering { if a < b then Before else if a == b then Same else After }

  function CompareId(a: seq<byte>, b: seq<byte>): Ordering {
    if Less(a, b) then Before else if a == b then Same else After
  }

  /** Both costs are in the same model, and that model is not zero. */
  predicate Priced(l: Candidate, r: Candidate) { l.costModel != 0 && l.costModel == r.costModel }

  function CompareCost(l: Candidate, r: Candidate): Ordering {
    if Priced(l, r) then Compare(l.costUnits, r.costUnits) else Same
  }

  function Preference(c: Candidate, preferred: Option<u32>): int { if preferred == Some(c.transport) then 0 else 1 }

  function CompareCandidates(l: Candidate, r: Candidate, preferred: Option<u32>): Ordering {
    Compare(r.successCount, l.successCount)
      .Then(Compare(r.throughput, l.throughput))
      .Then(Compare(l.rtt, r.rtt))
      .Then(CompareCost(l, r))
      .Then(Compare(Preference(l, preferred), Preference(r, preferred)))
      .Then(Compare(l.preferenceRank, r.preferenceRank))
      .Then(Compare(l.transport, r.transport))
      .Then(CompareId(l.id, r.id))
  }

  predicate Precedes(l: Candidate, r: Candidate, preferred: Option<u32>) {
    CompareCandidates(l, r, preferred).Before?
  }

  // ---------------------------------------------------------------- the comparison as keys

  function MetricKey(c: Candidate): seq<int> { [0 - c.successCount as int, 0 - c.throughput as int, c.rtt] }

  function TieKey(c: Candidate, preferred: Option<u32>): seq<int> {
    [Preference(c, preferred), c.preferenceRank, c.transport]
  }

  lemma {:induction false} Less3(a: seq<int>, b: seq<int>)
    requires |a| == |b| == 3
    ensures Less(a, b) <==> a[0] < b[0] || (a[0] == b[0] && (a[1] < b[1] || (a[1] == b[1] && a[2] < b[2])))
  {
    assert a[1..][1..] == a[2..] && b[1..][1..] == b[2..];
    assert Less(a[2..], b[2..]) <==> a[2] < b[2] by { assert a[2..][1..] == [] && b[2..][1..] == []; }
  }

  /** Between candidates of different transports: metrics decide, then the cost of a shared model, then
      the tie keys. */
  lemma {:induction false} CompareKeys(l: Candidate, r: Candidate, preferred: Option<u32>)
    requires l.transport != r.transport
    ensures Precedes(l, r, preferred) <==>
      if MetricKey(l) != MetricKey(r) then Less(MetricKey(l), MetricKey(r))
      else if Priced(l, r) && l.costUnits != r.costUnits then l.costUnits < r.costUnits
      else Less(TieKey(l, preferred), TieKey(r, preferred))
  {
    Less3(MetricKey(l), MetricKey(r));
    Less3(TieKey(l, preferred), TieKey(r, preferred));
    SameMetricsIff(l, r);
  }

  lemma {:induction false} SameMetricsIff(l: Candidate, r: Candidate)
    ensures MetricKey(l) == MetricKey(r) <==>
      l.successCount == r.successCount && l.throughput == r.throughput && l.rtt == r.rtt
  {
    assert forall i | 0 <= i < 3 :: MetricKey(l) == MetricKey(r) ==> MetricKey(l)[i] == MetricKey(r)[i];
  }

  predicate SameMetrics(l: Candidate, r: Candidate) {
    l.successCount == r.successCount && l.throughput == r.throughput && l.rtt == r.rtt
  }

  /** The costs are in one non-zero model and differ. */
  predicate CostsDiffer(l: Candidate, r: Candidate) {
    l.costModel != 0 && l.costModel == r.costModel && l.costUnits != r.costUnits
  }

  /** The comparison field by field: more successes, then more throughput, then a shorter round trip, then
      the lower cost of a shared model, then the preferred transport, then the lower rank, transport
      number and id. */
  lemma {:induction false} CompareMeaning(l: Candidate, r: Candidate, preferred: Option<u32>)
    ensures Precedes(l, r, preferred) <==>
      if l.successCount != r.successCount then l.successCount > r.successCount
      else if l.throughput != r.throughput then l.throughput > r.throughput
      else if l.rtt != r.rtt then l.rtt < r.rtt
      else if CostsDiffer(l, r) then l.costUnits < r.costUnits
      else if l.transport == r.transport then l.preferenceRank < r.preferenceRank
        || (l.preferenceRank == r.preferenceRank && Less(l.id, r.id))
      else if preferred == Some(l.transport) then true
      else if preferred == Some(r.transport) then false
      else if l.preferenceRank != r.preferenceRank then l.preferenceRank < r.preferenceRank
      else l.transport < r.transport
  {
  }

  /** Among candidates with the same metrics and no cost difference the preferred transport comes first. */
  lemma {:induction false} PreferredFirst(l: Candidate, r: Candidate)
    requires SameMetrics(l, r) && !CostsDiffer(l, r) && l.transport != r.transport
    ensures Precedes(l, r, Some(l.transport)) && !Precedes(r, l, Some(l.transport))
  {
    CompareMeaning(l, r, Some(l.transport));
    CompareMeaning(r, l, Some(l.transport));
  }

  lemma {:induction false} TieKeysDiffer(l: Candidate, r: Candidate, preferred: Option<u32>)
    requires l.transport != r.transport
    ensures TieKey(l, preferred) != TieKey(r, preferred)
  {
    assert TieKey(l, preferred)[2] != TieKey(r, preferred)[2];
  }

  /** Of two candidates of different transports exactly one precedes the other. */
  lemma {:induction false} ExactlyOne(l: Candidate, r: Candidate, preferred: Option<u32>)
    requires l.transport != r.transport
    ensures Precedes(l, r, preferred) != Precedes(r, l, preferred)
  {
    CompareKeys(l, r, preferred);
    CompareKeys(r, l, preferred);
    TieKeysDiffer(l, r, preferred);
    if MetricKey(l) != MetricKey(r) { TotalAsymmetric(MetricKey(l), MetricKey(r)); }
    TotalAsymmetric(TieKey(l, preferred), TieKey(r, preferred));
  }

  lemma {:induction false} TotalAsymmetric(a: seq<int>, b: seq<int>)
    requires a != b
    ensures Less(a, b) != Less(b, a)
  {
    Total(a, b);
    if Less(a, b) { Asymmetric(a, b); }
  }

  // ---------------------------------------------------------------- when the comparison cycles

  /** `b` lies by its tie key between `a` and `c`, which share a cost model in which `c` is cheaper,
      while `b` is priced otherwise and all metrics agree. */
  predicate Straddle(a: Candidate, b: Candidate, c: Candidate, preferred: Option<u32>) {
    && MetricKey(a) == MetricKey(b) == MetricKey(c)
    && Priced(a, c) && !Priced(a, b) && c.costUnits < a.costUnits
    && Less(TieKey(a, preferred), TieKey(b, preferred)) && Less(TieKey(b, preferred), TieKey(c, preferred))
  }

  predicate Apart(a: Candidate, b: Candidate, c: Candidate) {
    a.transport != b.transport && b.transport != c.transport && c.transport != a.transport
  }

  lemma {:induction false} StraddleCycles(a: Candidate, b: Candidate, c: Candidate, preferred: Option<u32>)
    requires Apart(a, b, c) && Straddle(a, b, c, preferred)
    ensures Precedes(a, b, preferred) && Precedes(b, c, preferred) && Precedes(c, a, preferred)
  {
    CompareKeys(a, b, preferred);
    CompareKeys(b, c, preferred);
    CompareKeys(c, a, preferred);
  }

  lemma {:induction false} CycleSharesMetrics(a: Candidate, b: Candidate, c: Candidate, preferred: Option<u32>)
    requires Apart(a, b, c)
    requires Precedes(a, b, preferred) && Precedes(b, c, preferred) && Precedes(c, a, preferred)
    ensures MetricKey(a) == MetricKey(b) == MetricKey(c)
  {
    CompareKeys(a, b, preferred);
    CompareKeys(b, c, preferred);
    CompareKeys(c, a, preferred);
    var x, y, z := MetricKey(a), MetricKey(b), MetricKey(c);
    if Less(x, y) && Less(y, z) { Transitive(x, y, z); }
    if Less(y, z) && Less(z, x) { Transitive(y, z, x); }
    if Less(z, x) && Less(x, y) { Transitive(z, x, y); }
    if x != y { TotalAsymmetric(x, y); }
    if y != z { TotalAsymmetric(y, z); }
    if z != x { TotalAsymmetric(z, x); }
  }

  /** One turn of a cycle whose closing pair shares a cost model that `b` does not have. */
  lemma {:induction false} CycleAtPair(a: Candidate, b: Candidate, c: Candidate, preferred: Option<u32>)
    requires Apart(a, b, c) && MetricKey(a) == MetricKey(b) == MetricKey(c)
    requires Precedes(a, b, preferred) && Precedes(b, c, preferred) && Precedes(c, a, preferred)
    requires Priced(a, c) && !Priced(a, b)
    ensures Straddle(a, b, c, preferred)
  {
    CompareKeys(a, b, preferred);
    CompareKeys(b, c, preferred);
    CompareKeys(c, a, preferred);
    var x, y, z := TieKey(a, preferred), TieKey(b, preferred), TieKey(c, preferred);
    Transitive(x, y, z);
    Asymmetric(x, z);
  }

  lemma {:induction false} NoCycleUnpriced(a: Candidate, b: Candidate, c: Candidate, preferred: Option<u32>)
    requires Apart(a, b, c) && MetricKey(a) == MetricKey(b) == MetricKey(c)
    requires Precedes(a, b, preferred) && Precedes(b, c, preferred)
    requires (Priced(a, b) && Priced(b, c)) || (!Priced(a, b) && !Priced(b, c) && !Priced(a, c))
    ensures Precedes(a, c, preferred)
  {
    CompareKeys(a, b, preferred);
    CompareKeys(b, c, preferred);
    CompareKeys(a, c, preferred);
    var x, y, z := TieKey(a, preferred), TieKey(b, preferred), TieKey(c, preferred);
    if Less(x, y) && Less(y, z) { Transitive(x, y, z); }
  }

  /** Three candidates precede each other in a circle exactly when one of them straddles the others. */
  lemma {:induction false} CycleIff(a: Candidate, b: Candidate, c: Candidate, preferred: Option<u32>)
    requires Apart(a, b, c)
    ensures Precedes(a, b, preferred) && Precedes(b, c, preferred) && Precedes(c, a, preferred) <==>
      Straddle(a, b, c, preferred) || Straddle(b, c, a, preferred) || Straddle(c, a, b, preferred)
  {
    if Straddle(a, b, c, preferred) { StraddleCycles(a, b, c, preferred); }
    if Straddle(b, c, a, preferred) { StraddleCycles(b, c, a, preferred); }
    if Straddle(c, a, b, preferred) { StraddleCycles(c, a, b, preferred); }
    if Precedes(a, b, preferred) && Precedes(b, c, preferred) && Precedes(c, a, preferred) {
      CycleSharesMetrics(a, b, c, preferred);
      if Priced(a, c) && !Priced(a, b) {
        CycleAtPair(a, b, c, preferred);
      } else if Priced(b, a) && !Priced(b, c) {
        CycleAtPair(b, c, a, preferred);
      } else if Priced(c, b) && !Priced(c, a) {
        CycleAtPair(c, a, b, preferred);
      } else {
        NoCycleUnpriced(a, b, c, preferred);
        ExactlyOne(a, c, preferred);
      }
    }
  }

  /** A circle: the first is dearer than the third in their model, the second has no cost model. */
  lemma {:induction false} ComparisonCanCycle()
    ensures var a := Candidate(1, 1, 1, 1, 2, 0, 1, [97]);
      var b := Candidate(1, 1, 1, 0, 0, 0, 2, [98]);
      var c := Candidate(1, 1, 1, 1, 1, 0, 3, [99]);
      Precedes(a, b, None) && Precedes(b, c, None) && Precedes(c, a, None)
  {
  }

  // ---------------------------------------------------------------- rankings of a candidate list

  /** The evidence check admits one provider per transport. */
  ghost predicate OnePerTransport(s: seq<Candidate>) {
    forall i, j | 0 <= i < j < |s| :: s[i].transport != s[j].transport
  }

  ghost predicate Straddled(s: seq<Candidate>, preferred: Option<u32>) {
    exists a, b, c | a in s && b in s && c in s :: Straddle(a, b, c, preferred)
  }

  /** Every candidate precedes all the ones after it. */
  ghost predicate Ranked(s: seq<Candidate>, preferred: Option<u32>) {
    forall i, j | 0 <= i < j < |s| :: Precedes(s[i], s[j], preferred)
  }

  ghost predicate Ranking(t: seq<Candidate>, s: seq<Candidate>, preferred: Option<u32>) {
    multiset(t) == multiset(s) && Ranked(t, preferred)
  }

  lemma {:induction false} SameTransportSame(s: seq<Candidate>, a: Candidate, b: Candidate)
    requires OnePerTransport(s) && a in s && b in s && a.transport == b.transport
    ensures a == b
  {
    var i :| 0 <= i < |s| && s[i] == a;
    var j :| 0 <= j < |s| && s[j] == b;
  }

  lemma {:induction false} NotBeforeItself(a: Candidate, preferred: Option<u32>)
    ensures !Precedes(a, a, preferred)
  {
    Irreflexive(a.id);
  }

  lemma {:induction false} Different(s: seq<Candidate>, a: Candidate, b: Candidate, preferred: Option<u32>)
    requires OnePerTransport(s) && a in s && b in s && Precedes(a, b, preferred)
    ensures a.transport != b.transport
  {
    if a.transport == b.transport {
      SameTransportSame(s, a, b);
      NotBeforeItself(a, preferred);
    }
  }

  /** Among candidates none of which straddles others, the comparison is transitive. */
  lemma {:induction false} TransitiveWithin(
    s: seq<Candidate>, a: Candidate, b: Candidate, c: Candidate, preferred: Option<u32>)
    requires OnePerTransport(s) && !Straddled(s, preferred) && a in s && b in s && c in s
    requires Precedes(a, b, preferred) && Precedes(b, c, preferred)
    ensures Precedes(a, c, preferred)
  {
    Different(s, a, b, preferred);
    Different(s, b, c, preferred);
    ExactlyOne(a, b, preferred);
    if a.transport == c.transport {
      SameTransportSame(s, a, c);
    } else {
      CycleIff(a, b, c, preferred);
      ExactlyOne(a, c, preferred);
    }
  }

  function Insert(c: Candidate, t: seq<Candidate>, preferred: Option<u32>): (r: seq<Candidate>)
    ensures multiset(r) == multiset{c} + multiset(t)
  {
    if t == [] || Precedes(c, t[0], preferred) then [c] + t
    else
      assert t == [t[0]] + t[1..];
      [t[0]] + Insert(c, t[1..], preferred)
  }

  lemma {:induction false} InMultiset(s: seq<Candidate>, t: seq<Candidate>, i: nat)
    requires i < |t| && multiset(t) <= multiset(s)
    ensures t[i] in s
  {
    assert t[i] in multiset(t);
    assert t[i] in multiset(s);
  }

  lemma {:induction false} InsertRanked(s: seq<Candidate>, c: Candidate, t: seq<Candidate>, preferred: Option<u32>)
    requires OnePerTransport(s) && !Straddled(s, preferred)
    requires c in s && (forall x | x in t :: x in s && x.transport != c.transport) && Ranked(t, preferred)
    ensures Ranked(Insert(c, t, preferred), preferred)
    decreases |t|
  {
    if t != [] {
      if Precedes(c, t[0], preferred) {
        forall j | 0 < j < |t| ensures Precedes(c, t[j], preferred) {
          TransitiveWithin(s, c, t[0], t[j], preferred);
        }
      } else {
        InsertRanked(s, c, t[1..], preferred);
        ExactlyOne(c, t[0], preferred);
        var rest := Insert(c, t[1..], preferred);
        forall j | 0 <= j < |rest| ensures Precedes(t[0], rest[j], preferred) {
          assert rest[j] in multiset(rest);
          assert rest[j] == c || rest[j] in t[1..];
        }
      }
    }
  }

  lemma {:induction false} EarlierApart(s: seq<Candidate>, u: seq<Candidate>, k: nat)
    requires OnePerTransport(s) && k < |s| && multiset(u) == multiset(s[..k])
    ensures forall x | x in u :: x in s && x.transport != s[k].transport
  {
    forall x | x in u ensures x in s && x.transport != s[k].transport {
      assert x in multiset(s[..k]);
      var i :| 0 <= i < k && s[..k][i] == x;
    }
  }

  lemma {:induction false} OneMore(s: seq<Candidate>, k: nat)
    requires k < |s|
    ensures multiset(s[..k + 1]) == multiset{s[k]} + multiset(s[..k])
  {
    assert s[..k + 1] == s[..k] + [s[k]];
  }

  lemma {:induction false} SortRanked(s: seq<Candidate>, k: nat, preferred: Option<u32>) returns (t: seq<Candidate>)
    requires OnePerTransport(s) && !Straddled(s, preferred) && k <= |s|
    ensures multiset(t) == multiset(s[..k]) && Ranked(t, preferred)
  {
    t := [];
    if k > 0 {
      var u := SortRanked(s, k - 1, preferred);
      EarlierApart(s, u, k - 1);
      InsertRanked(s, s[k - 1], u, preferred);
      t := Insert(s[k - 1], u, preferred);
      OneMore(s, k - 1);
    }
  }

  lemma {:induction false} RankedPositions(t: seq<Candidate>, a: Candidate, b: Candidate, preferred: Option<u32>)
    returns (i: nat, j: nat)
    requires Ranked(t, preferred) && a in t && b in t && a.transport != b.transport && Precedes(a, b, preferred)
    ensures i < j < |t| && t[i] == a && t[j] == b
  {
    i :| 0 <= i < |t| && t[i] == a;
    j :| 0 <= j < |t| && t[j] == b;
    ExactlyOne(a, b, preferred);
  }

  lemma {:induction false} SameFirst(t: seq<Candidate>, u: seq<Candidate>, preferred: Option<u32>)
    requires Ranked(t, preferred) && Ranked(u, preferred) && OnePerTransport(t) && t != [] && u != []
    requires t[0] in u && u[0] in t
    ensures t[0] == u[0]
  {
    var k :| 0 <= k < |u| && u[k] == t[0];
    var m :| 0 <= m < |t| && t[m] == u[0];
    if m > 0 { ExactlyOne(t[0], t[m], preferred); }
  }

  lemma {:induction false} TailMembers(t: seq<Candidate>)
    requires OnePerTransport(t) && t != []
    ensures forall x :: x in t[1..] <==> x in t && x != t[0]
  {
  }

  lemma {:induction false} FirstIn(t: seq<Candidate>)
    ensures t != [] ==> t[0] in t
  {
  }

  lemma {:induction false} RankedRest(t: seq<Candidate>, preferred: Option<u32>)
    requires t != [] && Ranked(t, preferred) && OnePerTransport(t)
    ensures Ranked(t[1..], preferred) && OnePerTransport(t[1..])
  {
  }

  /** Two rankings of the same candidates are equal. */
  lemma {:induction false} RankingUnique(t: seq<Candidate>, u: seq<Candidate>, preferred: Option<u32>)
    requires Ranked(t, preferred) && Ranked(u, preferred) && OnePerTransport(t) && OnePerTransport(u)
    requires forall x :: x in t <==> x in u
    ensures t == u
    decreases |t|
  {
    FirstIn(t);
    FirstIn(u);
    if t != [] {
      SameFirst(t, u, preferred);
      TailMembers(t);
      TailMembers(u);
      RankedRest(t, preferred);
      RankedRest(u, preferred);
      RankingUnique(t[1..], u[1..], preferred);
    }
  }

  lemma {:induction false} StraddledHasNoRanking(s: seq<Candidate>, t: seq<Candidate>, preferred: Option<u32>)
    requires OnePerTransport(s) && Straddled(s, preferred)
    ensures !Ranking(t, s, preferred)
  {
    if Ranking(t, s, preferred) {
      var a, b, c :| a in s && b in s && c in s && Straddle(a, b, c, preferred);
      assert a in multiset(t) && b in multiset(t) && c in multiset(t);
      StraddleApart(s, a, b, c, preferred);
      StraddleCycles(a, b, c, preferred);
      PositionsCycle(s, t, a, b, c, preferred);
    }
  }

  lemma {:induction false} StraddleApart(
    s: seq<Candidate>, a: Candidate, b: Candidate, c: Candidate, preferred: Option<u32>)
    requires OnePerTransport(s) && a in s && b in s && c in s && Straddle(a, b, c, preferred)
    ensures Apart(a, b, c)
  {
    var x, y, z := TieKey(a, preferred), TieKey(b, preferred), TieKey(c, preferred);
    Irreflexive(x);
    Irreflexive(y);
    if a.transport == b.transport { SameTransportSame(s, a, b); }
    if b.transport == c.transport { SameTransportSame(s, b, c); }
    if a.transport == c.transport { SameTransportSame(s, a, c); }
  }

  lemma {:induction false} OnePerTransportIn(s: seq<Candidate>, t: seq<Candidate>)
    requires OnePerTransport(s) && multiset(t) == multiset(s)
    ensures OnePerTransport(t)
  {
    forall i, j | 0 <= i < j < |t| ensures t[i].transport != t[j].transport {
      InMultiset(s, t, i);
      InMultiset(s, t, j);
      if t[i].transport == t[j].transport {
        SameTransportSame(s, t[i], t[j]);
        TwiceIn(t, i, j);
        AtMostOnce(s, t[i]);
      }
    }
  }

  lemma {:induction false} TwiceIn(t: seq<Candidate>, i: nat, j: nat)
    requires i < j < |t| && t[i] == t[j]
    ensures multiset(t)[t[i]] >= 2
  {
    assert t == t[..i] + [t[i]] + t[i + 1..j] + [t[j]] + t[j + 1..];
  }

  lemma {:induction false} AtMostOnce(s: seq<Candidate>, a: Candidate)
    requires OnePerTransport(s)
    ensures multiset(s)[a] <= 1
  {
    if multiset(s)[a] >= 1 {
      assert a in s;
      var i :| 0 <= i < |s| && s[i] == a;
      assert s == s[..i] + [s[i]] + s[i + 1..];
      assert a !in s[..i] && a !in s[i + 1..];
    }
  }

  lemma {:induction false} PositionsCycle(
    s: seq<Candidate>, t: seq<Candidate>, a: Candidate, b: Candidate, c: Candidate, preferred: Option<u32>)
    requires OnePerTransport(s) && multiset(t) == multiset(s) && a in t && b in t && c in t && Apart(a, b, c)
    requires Precedes(a, b, preferred) && Precedes(b, c, preferred) && Precedes(c, a, preferred)
    ensures !Ranked(t, preferred)
  {
    OnePerTransportIn(s, t);
    if Ranked(t, preferred) {
      var i, j := RankedPositions(t, a, b, preferred);
      var j', k := RankedPositions(t, b, c, preferred);
      var k', i' := RankedPositions(t, c, a, preferred);
      assert false;
    }
  }

  /** A candidate list can be ranked exactly when no candidate straddles two others; the ranking is
      then unique, so neither it nor the selected first candidate depends on the listing order. */
  lemma {:induction false} RankingExistsIff(s: seq<Candidate>, preferred: Option<u32>)
    requires OnePerTransport(s)
    ensures (exists t :: Ranking(t, s, preferred)) <==> !Straddled(s, preferred)
    ensures forall t, u | Ranking(t, s, preferred) && Ranking(u, s, preferred) :: t == u
  {
    if Straddled(s, preferred) {
      forall t ensures !Ranking(t, s, preferred) { StraddledHasNoRanking(s, t, preferred); }
    } else {
      var t := SortRanked(s, |s|, preferred);
      assert s[..|s|] == s;
      assert Ranking(t, s, preferred);
    }
    forall t, u | Ranking(t, s, preferred) && Ranking(u, s, preferred) ensures t == u {
      OnePerTransportIn(s, t);
      OnePerTransportIn(s, u);
      assert forall x :: x in t <==> x in multiset(t);
      assert forall x :: x in u <==> x in multiset(u);
      RankingUnique(t, u, preferred);
    }
  }

  /** The selected candidate of a ranking beats every other in the comparison, and with equal metrics and
      no cost differences it is the preferred transport when that one succeeded. */
  lemma {:induction false} SelectedIsBest(s: seq<Candidate>, t: seq<Candidate>, preferred: Option<u32>, c: Candidate)
    requires OnePerTransport(s) && Ranking(t, s, preferred) && c in s
    ensures t != [] && (c == t[0] || Precedes(t[0], c, preferred))
    ensures preferred == Some(c.transport) && SameMetrics(c, t[0]) && !CostsDiffer(c, t[0]) ==> c == t[0]
  {
    assert c in multiset(t);
    var i :| 0 <= i < |t| && t[i] == c;
    if i > 0 {
      OnePerTransportIn(s, t);
      if SameMetrics(c, t[0]) && !CostsDiffer(c, t[0]) { PreferredFirst(c, t[0]); }
    }
  }
}

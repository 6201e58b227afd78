/** Strictly ascending lists of numbers: the order in which ordered maps and sorts list a set. */
module Order {

  ghost predicate Ascending(s: seq<nat>) { forall i, j | 0 <= i < j < |s| :: s[i] < s[j] }

  ghost function Elements(s: seq<nat>): set<nat> { set x | x in s }

  lemma {:induction false} EmptyElements(s: seq<nat>)
    ensures Elements(s) == {} ==> s == []
  {
    if s != [] { assert s[0] in Elements(s); }
  }

  /** A set has one strictly ascending listing. */
  lemma {:induction false} AscendingUnique(s: seq<nat>, t: seq<nat>)
    requires Ascending(s) && Ascending(t) && Elements(s) == Elements(t)
    ensures s == t
    decreases |s|
  {
    if s == [] {
      EmptyElements(t);
    } else {
      assert s[0] in Elements(s);
      var k :| 0 <= k < |t| && t[k] == s[0];
      assert t[0] in Elements(t);
      var m :| 0 <= m < |s| && s[m] == t[0];
      assert k == 0 && m == 0;
      forall x ensures x in Elements(s[1..]) <==> x in Elements(t[1..]) {
        assert x in Elements(s[1..]) <==> x in Elements(s) && x != s[0];
        assert x in Elements(t[1..]) <==> x in Elements(t) && x != t[0];
      }
      AscendingUnique(s[1..], t[1..]);
    }
  }

  ghost function Least(s: set<nat>): (m: nat)
    requires s != {}
    ensures m in s && forall x | x in s :: m <= x
    decreases |s|
  {
    var a :| a in s;
    assert forall x | x in s :: x == a || x in s - {a};
    if s - {a} == {} then a
    else
      var b := Least(s - {a});
      if b < a then b else a
  }

  lemma {:induction false} ConsAscending(m: nat, rest: seq<nat>)
    requires Ascending(rest) && forall x | x in Elements(rest) :: m < x
    ensures Ascending([m] + rest) && Elements([m] + rest) == {m} + Elements(rest)
  {
    assert forall i | 0 <= i < |rest| :: rest[i] in Elements(rest);
  }

  /** The strictly ascending listing of a finite set. */
  ghost function Listing(s: set<nat>): (r: seq<nat>)
    ensures Ascending(r) && Elements(r) == s
    decreases |s|
  {
    if s == {} then []
    else
      var m := Least(s);
      var rest := Listing(s - {m});
      ConsAscending(m, rest);
      [m] + rest
  }

  /** Sort distinct numbers by insertion. */
  method Sort(s: seq<nat>) returns (r: seq<nat>)
    requires forall i, j | 0 <= i < j < |s| :: s[i] != s[j]
    ensures Ascending(r) && Elements(r) == Elements(s)
  {
    r := [];
    for i := 0 to |s|
      invariant Ascending(r) && Elements(r) == Elements(s[..i])
    {
      var j := 0;
      while j < |r| && r[j] < s[i]
        invariant 0 <= j <= |r| && forall k | 0 <= k < j :: r[k] < s[i]
      {
        j := j + 1;
      }
      assert j < |r| ==> r[j] != s[i] by {
        if j < |r| {
          assert r[j] in Elements(r);
          var k :| 0 <= k < i && s[..i][k] == r[j];
        }
      }
      ghost var before := r;
      r := r[..j] + [s[i]] + r[j..];
      assert Elements(r) == Elements(before) + {s[i]};
      assert s[..i + 1] == s[..i] + [s[i]];
    }
    assert s[..|s|] == s;
  }
}

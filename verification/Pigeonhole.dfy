/** Two lists of different numbers that cannot both fit below a bound without meeting. */
module Pigeonhole {
  import opened Wrappers

  lemma {:induction false} SizeBelow(s: set<nat>, m: nat)
    requires forall y :: y in s ==> y < m
    ensures |s| <= m
    decreases m
  {
    if m == 0 {
      assert s == {};
    } else {
      SizeBelow(s - {m - 1}, m - 1);
    }
  }

  lemma CommonValue(a: seq<nat>, b: seq<nat>, m: nat) returns (i: nat, j: nat)
    requires AllDifferent(a) && AllDifferent(b) && |a| + |b| > m
    requires (forall x :: x in a ==> x < m) && (forall x :: x in b ==> x < m)
    ensures i < |a| && j < |b| && a[i] == b[j]
  {
    var s, t := Members(a), Members(b);
    MembersSize(a);
    MembersSize(b);
    SizeBelow(s + t, m);
    assert |s + t| + |s * t| == |s| + |t|;
    assert s * t != {};
    var y :| y in s * t;
    i :| 0 <= i < |a| && a[i] == y;
    j :| 0 <= j < |b| && b[j] == y;
  }
}

/** Small definitions that several modules share. */
module Wrappers {
  datatype Option<T> = None | Some(value: T)

  function Least(a: nat, b: nat): nat {
    if a < b then a else b
  }

  lemma Associates<T>(a: seq<T>, b: seq<T>, c: seq<T>)
    ensures a + b + c == a + (b + c)
  {}

  lemma SideBySide<T>(before: seq<T>, l: T, u: T, after: seq<T>)
    ensures before + [l] + ([u] + after) == before + [l, u] + after
  {}

  ghost predicate AllDifferent<T>(s: seq<T>) {
    forall i, j :: 0 <= i < j < |s| ==> s[i] != s[j]
  }

  ghost function Members<T>(s: seq<T>): set<T> {
    set x | x in s
  }

  lemma {:induction false} MembersSize<T>(s: seq<T>)
    requires AllDifferent(s)
    ensures |Members(s)| == |s|
    decreases s
  {
    if s != [] {
      var n := |s| - 1;
      MembersSize(s[..n]);
      assert Members(s) == Members(s[..n]) + {s[n]};
    }
  }

  lemma SubsetSize<T>(a: set<T>, b: set<T>)
    requires a <= b
    ensures |a| <= |b| && (|a| == |b| ==> a == b)
  {
    assert b == a + (b - a);
    assert |b| == |a| + |b - a|;
  }
}

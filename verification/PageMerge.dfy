/**
 Merging the rows several shards return for one page.

 Rows with equal timestamps may come in any order from a shard, shards may answer in
 any order, and the final sort is not stable; PageOf therefore is a relation, and the
 lemmas hold for every outcome.
 */
module PageMerge {
  import opened Fnv
  import opened DocumentIds
  import opened ShardMaps
  import opened Wrappers

  datatype Document = Document(id: Bytes, data: Doc, createdAt: int, updatedAt: int, shardId: nat)

  // ---------- What one shard returns ----------

  /** An order in which a shard may list the rows of a collection, newest first. */
  ghost predicate IsOrdering(table: Table, collection: Bytes, ord: seq<Bytes>) {
    && (forall id :: id in ord <==> id in table && table[id].collection == collection)
    && (forall i, j :: 0 <= i < j < |ord| ==> ord[i] != ord[j])
    && (forall i, j :: 0 <= i <= j < |ord| ==> table[ord[i]].updatedAt >= table[ord[j]].updatedAt)
  }

  function Window<T>(s: seq<T>, offset: nat, limit: nat): (w: seq<T>)
    ensures |w| <= limit
  {
    if |s| <= offset then [] else if |s| <= offset + limit then s[offset..] else s[offset..offset + limit]
  }

  function Documents(table: Table, ids: seq<Bytes>, shard: nat): (docs: seq<Document>)
    requires forall id :: id in ids ==> id in table
    ensures |docs| == |ids|
    ensures forall i :: 0 <= i < |ids| ==> docs[i] == DocumentOf(ids[i], table[ids[i]], shard)
  {
    seq(|ids|, i requires 0 <= i < |ids| => DocumentOf(ids[i], table[ids[i]], shard))
  }

  function DocumentOf(id: Bytes, row: Row, shard: nat): Document {
    Document(id, row.data, row.createdAt, row.updatedAt, shard)
  }

  // ---------- Collecting answers ----------

  // The answers in order of arrival
  function Fetched(answers: seq<seq<Document>>, arrival: seq<nat>): seq<Document>
    requires forall i :: 0 <= i < |arrival| ==> arrival[i] < |answers|
  {
    if arrival == [] then []
    else Fetched(answers, arrival[..|arrival| - 1]) + answers[arrival[|arrival| - 1]]
  }

  function Without<T>(s: seq<T>, k: nat): seq<T>
    requires k < |s|
  {
    s[..k] + s[k + 1..]
  }

  lemma WithoutMultiset<T>(s: seq<T>, k: nat)
    requires k < |s|
    ensures multiset(s) == multiset(Without(s, k)) + multiset{s[k]}
  {
    assert s == s[..k] + [s[k]] + s[k + 1..];
  }

  // The last element of one sequence, found in another one with the same elements
  lemma FindLast<T>(a: seq<T>, b: seq<T>) returns (k: nat)
    requires a != [] && multiset(a) == multiset(b)
    ensures k < |b| && b[k] == a[|a| - 1]
    ensures multiset(a[..|a| - 1]) == multiset(Without(b, k))
  {
    var n := |a| - 1;
    assert a[n] in multiset(b);
    k :| 0 <= k < |b| && b[k] == a[n];
    WithoutMultiset(b, k);
    WithoutMultiset(a, n);
    assert Without(a, n) == a[..n];
    assert multiset(a[..n]) == multiset(a) - multiset{a[n]};
    assert multiset(Without(b, k)) == multiset(b) - multiset{a[n]};
  }

  lemma {:induction false} FetchedWithout(answers: seq<seq<Document>>, arrival: seq<nat>, k: nat)
    requires forall i :: 0 <= i < |arrival| ==> arrival[i] < |answers|
    requires k < |arrival|
    ensures multiset(Fetched(answers, arrival))
         == multiset(Fetched(answers, Without(arrival, k))) + multiset(answers[arrival[k]])
    decreases arrival
  {
    var n := |arrival| - 1;
    var init, rest := arrival[..n], Without(arrival, k);
    if k == n {
      assert rest == init;
    } else {
      FetchedWithout(answers, init, k);
      assert rest[..|rest| - 1] == Without(init, k) && rest[|rest| - 1] == arrival[n];
    }
  }

  /** Which rows are fetched does not depend on the order in which the shards answer. */
  lemma {:induction false} ArrivalsAgree(answers: seq<seq<Document>>, a: seq<nat>, b: seq<nat>)
    requires forall i :: 0 <= i < |a| ==> a[i] < |answers|
    requires forall i :: 0 <= i < |b| ==> b[i] < |answers|
    requires multiset(a) == multiset(b)
    ensures multiset(Fetched(answers, a)) == multiset(Fetched(answers, b))
    decreases a
  {
    if a == [] {
      assert |multiset(b)| == 0;
    } else {
      var k := FindLast(a, b);
      ArrivalsAgree(answers, a[..|a| - 1], Without(b, k));
      FetchedWithout(answers, b, k);
    }
  }

  // ---------- Sorting and truncating ----------

  ghost predicate Descending(docs: seq<Document>) {
    forall i, j :: 0 <= i <= j < |docs| ==> docs[i].updatedAt >= docs[j].updatedAt
  }

  /** The first size rows of the fetched ones in some order, newest first. */
  ghost predicate PageOf(fetched: seq<Document>, size: nat, docs: seq<Document>) {
    exists sorted: seq<Document> :: IsSorted(fetched, sorted) && docs == Window(sorted, 0, size)
  }

  ghost predicate IsSorted(fetched: seq<Document>, sorted: seq<Document>) {
    multiset(sorted) == multiset(fetched) && Descending(sorted)
  }

  function Times(docs: seq<Document>): (ts: seq<int>)
    ensures |ts| == |docs|
    ensures forall i :: 0 <= i < |docs| ==> ts[i] == docs[i].updatedAt
  {
    seq(|docs|, i requires 0 <= i < |docs| => docs[i].updatedAt)
  }

  lemma TimesWithout(b: seq<Document>, k: nat)
    requires k < |b|
    ensures multiset(Times(b)) == multiset(Times(Without(b, k))) + multiset{b[k].updatedAt}
  {
    WithoutMultiset(Times(b), k);
    assert Without(Times(b), k) == Times(Without(b, k));
  }

  lemma {:induction false} TimesMultiset(a: seq<Document>, b: seq<Document>)
    requires multiset(a) == multiset(b)
    ensures multiset(Times(a)) == multiset(Times(b))
    decreases a
  {
    if a == [] {
      assert |multiset(b)| == 0;
    } else {
      var k := FindLast(a, b);
      TimesMultiset(a[..|a| - 1], Without(b, k));
      TimesWithout(b, k);
      assert Times(a) == Times(a[..|a| - 1]) + [a[|a| - 1].updatedAt];
    }
  }

  ghost predicate Falling(s: seq<int>) {
    forall i, j :: 0 <= i <= j < |s| ==> s[i] >= s[j]
  }

  lemma FallingFirst(a: seq<int>, b: seq<int>)
    requires a != [] && b != [] && Falling(b) && multiset(a) == multiset(b)
    ensures a[0] <= b[0]
  {
    assert a[0] in multiset(b);
    var i :| 0 <= i < |b| && b[i] == a[0];
  }

  lemma TailsAgree(a: seq<int>, b: seq<int>)
    requires a != [] && b != [] && a[0] == b[0] && multiset(a) == multiset(b)
    ensures multiset(a[1..]) == multiset(b[1..])
  {
    assert a == [a[0]] + a[1..] && b == [b[0]] + b[1..];
    assert multiset(a[1..]) == multiset(a) - multiset{a[0]};
    assert multiset(b[1..]) == multiset(b) - multiset{b[0]};
  }

  lemma {:induction false} FallingUnique(a: seq<int>, b: seq<int>)
    requires Falling(a) && Falling(b) && multiset(a) == multiset(b)
    ensures a == b
    decreases a
  {
    assert |a| == |multiset(a)| == |multiset(b)| == |b|;
    if a != [] {
      FallingFirst(a, b);
      FallingFirst(b, a);
      TailsAgree(a, b);
      FallingUnique(a[1..], b[1..]);
      assert a == [a[0]] + a[1..] && b == [b[0]] + b[1..];
    }
  }

  /** The timestamps on a page do not depend on the order of arrival nor on how the sort
      breaks ties. */
  lemma PageTimesUnique(f: seq<Document>, g: seq<Document>, size: nat, d: seq<Document>, e: seq<Document>)
    requires multiset(f) == multiset(g) && PageOf(f, size, d) && PageOf(g, size, e)
    ensures Times(d) == Times(e)
  {
    var s: seq<Document> :| IsSorted(f, s) && d == Window(s, 0, size);
    var t: seq<Document> :| IsSorted(g, t) && e == Window(t, 0, size);
    TimesMultiset(s, t);
    FallingUnique(Times(s), Times(t));
    assert Times(d) == Window(Times(s), 0, size) && Times(e) == Window(Times(t), 0, size);
  }

  ghost predicate NoneNewer(dropped: seq<Document>, kept: seq<Document>) {
    forall d, k :: d in dropped && k in kept ==> d.updatedAt <= k.updatedAt
  }

  /** The page is newest first and keeps as many rows as fit; what is dropped is not newer
      than anything kept. */
  lemma PageIsTopSelection(fetched: seq<Document>, size: nat, docs: seq<Document>)
    requires PageOf(fetched, size, docs)
    ensures Descending(docs) && |docs| == if |fetched| < size then |fetched| else size
    ensures exists dropped: seq<Document> ::
      multiset(docs) + multiset(dropped) == multiset(fetched) && NoneNewer(dropped, docs)
  {
    var s: seq<Document> :| IsSorted(fetched, s) && docs == Window(s, 0, size);
    SameSize(s, fetched);
    CutDescending(s, |docs|);
    CutMultiset(s, |docs|);
    assert docs == s[..|docs|];
  }

  lemma SameSize<T>(a: seq<T>, b: seq<T>)
    requires multiset(a) == multiset(b)
    ensures |a| == |b|
  {
    assert |a| == |multiset(a)| == |multiset(b)| == |b|;
  }

  lemma CutMultiset<T>(s: seq<T>, n: nat)
    requires n <= |s|
    ensures multiset(s[..n]) + multiset(s[n..]) == multiset(s)
  {
    assert s == s[..n] + s[n..];
  }

  lemma CutDescending(s: seq<Document>, n: nat)
    requires Descending(s) && n <= |s|
    ensures Descending(s[..n]) && NoneNewer(s[n..], s[..n])
  {
    forall d, k | d in s[n..] && k in s[..n] ensures d.updatedAt <= k.updatedAt {
      var i :| 0 <= i < n && s[i] == k;
      var j :| n <= j < |s| && s[j] == d;
    }
  }

  ghost predicate DistinctDocs(docs: seq<Document>) {
    forall i, j :: 0 <= i < j < |docs| ==> docs[i].id != docs[j].id
  }

  lemma {:induction false} DistinctOnce(docs: seq<Document>, x: Document)
    requires DistinctDocs(docs)
    ensures multiset(docs)[x] <= 1
    decreases docs
  {
    if docs != [] {
      var n := |docs| - 1;
      DistinctOnce(docs[..n], x);
      assert docs == docs[..n] + [docs[n]];
      if docs[n] == x {
        assert x !in docs[..n];
      }
    }
  }

  lemma TwiceCounts<T>(s: seq<T>, i: nat, j: nat)
    requires i < j < |s| && s[i] == s[j]
    ensures multiset(s)[s[i]] >= 2
  {
    WithoutMultiset(s, j);
    assert Without(s, j)[i] == s[i];
    assert s[i] in multiset(Without(s, j));
  }

  /** A page of rows with distinct ids shows no id twice. */
  lemma PageHasNoRowTwice(fetched: seq<Document>, size: nat, docs: seq<Document>)
    requires PageOf(fetched, size, docs) && DistinctDocs(fetched)
    ensures DistinctDocs(docs)
    ensures forall d :: d in docs ==> d in fetched
  {
    var s: seq<Document> :| IsSorted(fetched, s) && docs == Window(s, 0, size);
    assert forall d :: d in s <==> d in multiset(s);
    assert forall d :: d in fetched <==> d in multiset(fetched);
    forall i, j | 0 <= i < j < |s| ensures s[i].id != s[j].id {
      assert s[i] in fetched && s[j] in fetched;
      DistinctOnce(fetched, s[i]);
      if s[i] == s[j] {
        TwiceCounts(s, i, j);
      }
    }
  }

  // ---------- Which fetched rows are shown ----------

  ghost function Newer(docs: seq<Document>, time: int): set<Document> {
    set d | d in docs && d.updatedAt > time
  }

  ghost function NotOlder(docs: seq<Document>, time: int): set<Document> {
    set d | d in docs && d.updatedAt >= time
  }

  lemma DistinctAsSeq(docs: seq<Document>)
    requires DistinctDocs(docs)
    ensures AllDifferent(docs)
  {
    forall i, j | 0 <= i < j < |docs| ensures docs[i] != docs[j] {
      assert docs[i].id != docs[j].id;
    }
  }

  // Where a row is in the sorted list
  lemma RankIsBounded(sorted: seq<Document>, k: nat)
    requires Descending(sorted) && AllDifferent(sorted) && k < |sorted|
    ensures |Newer(sorted, sorted[k].updatedAt)| <= k < |NotOlder(sorted, sorted[k].updatedAt)|
  {
    var time := sorted[k].updatedAt;
    MembersSize(sorted[..k]);
    MembersSize(sorted[..k + 1]);
    assert Newer(sorted, time) <= Members(sorted[..k]) by {
      forall d | d in Newer(sorted, time) ensures d in sorted[..k] {
        var i :| 0 <= i < |sorted| && sorted[i] == d;
        assert i < k;
        assert sorted[..k][i] == d;
      }
    }
    assert Members(sorted[..k + 1]) <= NotOlder(sorted, time) by {
      forall d | d in sorted[..k + 1] ensures d in NotOlder(sorted, time) {
        var i :| 0 <= i <= k && sorted[..k + 1][i] == d;
        assert sorted[i] == d;
      }
    }
    SubsetSize(Newer(sorted, time), Members(sorted[..k]));
    SubsetSize(Members(sorted[..k + 1]), NotOlder(sorted, time));
  }

  /** A fetched row is shown if no more rows than fit are as new as it, and dropped if as many
      as fit are newer; only rows with the same timestamp leave the choice to the sort. */
  lemma ShownByRank(fetched: seq<Document>, size: nat, docs: seq<Document>, d: Document)
    requires PageOf(fetched, size, docs) && DistinctDocs(fetched) && d in fetched
    ensures |NotOlder(fetched, d.updatedAt)| <= size ==> d in docs
    ensures |Newer(fetched, d.updatedAt)| >= size ==> d !in docs
  {
    var sorted: seq<Document> :| IsSorted(fetched, sorted) && docs == Window(sorted, 0, size);
    SortedDistinct(fetched, sorted);
    var k :| 0 <= k < |sorted| && sorted[k] == d;
    RankIsBounded(sorted, k);
    assert Newer(fetched, d.updatedAt) == Newer(sorted, d.updatedAt);
    assert NotOlder(fetched, d.updatedAt) == NotOlder(sorted, d.updatedAt);
    forall i | 0 <= i < |docs| && docs[i] == d ensures i == k {
      assert sorted[i] == sorted[k];
    }
    assert k < size ==> docs[k] == d;
  }

  lemma SortedDistinct(fetched: seq<Document>, sorted: seq<Document>)
    requires IsSorted(fetched, sorted) && DistinctDocs(fetched)
    ensures AllDifferent(sorted) && Descending(sorted) && forall d :: d in sorted <==> d in fetched
  {
    assert forall d :: d in sorted <==> d in multiset(sorted);
    assert forall d :: d in fetched <==> d in multiset(fetched);
    forall i, j | 0 <= i < j < |sorted| ensures sorted[i] != sorted[j] {
      if sorted[i] == sorted[j] {
        TwiceCounts(sorted, i, j);
        DistinctOnce(fetched, sorted[i]);
      }
    }
  }

  /** Without such ties: a fetched row is shown if and only if fewer rows than fit are newer. */
  lemma ShownExactly(fetched: seq<Document>, size: nat, docs: seq<Document>, d: Document)
    requires PageOf(fetched, size, docs) && DistinctDocs(fetched) && d in fetched
    requires forall e :: e in fetched && e.updatedAt == d.updatedAt ==> e == d
    ensures d in docs <==> |Newer(fetched, d.updatedAt)| < size
  {
    ShownByRank(fetched, size, docs, d);
    assert NotOlder(fetched, d.updatedAt) == Newer(fetched, d.updatedAt) + {d};
  }
}

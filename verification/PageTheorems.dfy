/**
 What a page of a well-placed store contains, and what it misses.
 */
module PageTheorems {
  import opened Fnv
  import opened DocumentIds
  import opened ShardMaps
  import opened Paging
  import opened PageMerge
  import opened JsonEngine
  import opened Wrappers

  // A document that is the stored row of its id, found in the shard where it lives
  ghost predicate IsStoredRow(shards: Shards, collection: Bytes, d: Document) {
    && d.id in Union(shards) && d.shardId == Home(d.id)
    && var row := Union(shards)[d.id];
    && row.collection == collection && row.data == d.data
    && row.createdAt == d.createdAt && row.updatedAt == d.updatedAt
  }

  lemma AnswerRows(shards: Shards, collection: Bytes, orders: seq<seq<Bytes>>, offset: nat, limit: nat, s: nat)
    requires Placed(shards) && Listed(shards, collection, orders) && s < SHARD_COUNT
    ensures var docs := Documents(shards[s], Window(orders[s], offset, limit), s);
      DistinctDocs(docs) && forall d :: d in docs ==> IsStoredRow(shards, collection, d) && d.shardId == s
  {
    var docs := Documents(shards[s], Window(orders[s], offset, limit), s);
    forall d | d in docs ensures IsStoredRow(shards, collection, d) && d.shardId == s {
      var i :| 0 <= i < |docs| && docs[i] == d;
      assert d.id in orders[s];
      PlacedAtHome(shards);
      LookupIsRouted(shards, d.id);
    }
  }

  lemma ArrivalsDistinct(arrival: seq<nat>, needed: nat, i: nat, j: nat)
    requires Arrives(arrival, needed) && i < j < |arrival|
    ensures arrival[i] != arrival[j]
  {
    if arrival[i] == arrival[j] {
      TwiceCounts(arrival, i, j);
      UpToOnce(needed, arrival[i]);
    }
  }

  lemma {:induction false} UpToOnce(n: nat, x: nat)
    ensures multiset(UpTo(n))[x] <= 1 && (x >= n ==> x !in UpTo(n))
    decreases n
  {
    if n > 0 {
      UpToOnce(n - 1, x);
      assert UpTo(n) == UpTo(n - 1) + [n - 1];
    }
  }

  lemma {:induction false} FetchedRows(answers: seq<seq<Document>>, arrival: seq<nat>, shards: Shards, collection: Bytes)
    requires forall i :: 0 <= i < |arrival| ==> arrival[i] < |answers|
    requires forall i, j :: 0 <= i < j < |arrival| ==> arrival[i] != arrival[j]
    requires forall s :: 0 <= s < |answers| ==> DistinctDocs(answers[s])
    requires forall s, d :: 0 <= s < |answers| && d in answers[s] ==>
      IsStoredRow(shards, collection, d) && d.shardId == s
    ensures DistinctDocs(Fetched(answers, arrival))
    ensures forall d :: d in Fetched(answers, arrival) ==> IsStoredRow(shards, collection, d) && d.shardId in arrival
    decreases arrival
  {
    if arrival != [] {
      var n := |arrival| - 1;
      FetchedRows(answers, arrival[..n], shards, collection);
      var f, a := Fetched(answers, arrival[..n]), answers[arrival[n]];
      forall d, x | d in f && x in a ensures d.id != x.id {
        assert d.shardId in arrival[..n];
        assert d.id == x.id ==> d.shardId == x.shardId;
      }
      var all := f + a;
      forall i, j | 0 <= i < j < |all| ensures all[i].id != all[j].id {
        if i < |f| <= j {
          assert all[i] in f && all[j] in a;
        }
      }
    }
  }

  /** Every row on a page is a stored row of the collection from a queried shard, newest
      first, no id twice; a full page drops only rows that are not newer. */
  lemma PageContents(shards: Shards, collection: Bytes, page: int, pageSize: int, orders: seq<seq<Bytes>>,
                     arrival: seq<nat>, failed: set<nat>, docs: seq<Document>)
    requires Placed(shards) && Listed(shards, collection, orders) && Arrives(arrival, Needed(page, pageSize))
    requires PageOf(Fetched(Answers(shards, collection, page, pageSize, orders, failed), arrival),
                    EffectiveSize(pageSize), docs)
    ensures Descending(docs) && DistinctDocs(docs)
    ensures forall d :: d in docs ==> IsStoredRow(shards, collection, d) && Home(d.id) < Needed(page, pageSize)
    ensures exists dropped: seq<Document> ::
      NoneNewer(dropped, docs) && multiset(docs) + multiset(dropped) == multiset(
        Fetched(Answers(shards, collection, page, pageSize, orders, failed), arrival))
  {
    var size := EffectiveSize(pageSize);
    var answers := Answers(shards, collection, page, pageSize, orders, failed);
    forall s | 0 <= s < |answers|
      ensures DistinctDocs(answers[s])
      ensures forall d :: d in answers[s] ==> IsStoredRow(shards, collection, d) && d.shardId == s
    {
      AnswerRows(shards, collection, orders, ShardOffset(PageOffset(page, size), SHARD_COUNT, s), ShardLimit(size, SHARD_COUNT), s);
    }
    forall i, j | 0 <= i < j < |arrival| ensures arrival[i] != arrival[j] {
      ArrivalsDistinct(arrival, Needed(page, pageSize), i, j);
    }
    FetchedRows(answers, arrival, shards, collection);
    PageHasNoRowTwice(Fetched(answers, arrival), size, docs);
    PageIsTopSelection(Fetched(answers, arrival), size, docs);
  }

  /** The timestamps on a page are the same for every order of arrival. */
  lemma ArrivalDoesNotMatter(answers: seq<seq<Document>>, size: nat, a: seq<nat>, b: seq<nat>,
                             d: seq<Document>, e: seq<Document>)
    requires Arrives(a, |answers|) && Arrives(b, |answers|)
    requires PageOf(Fetched(answers, a), size, d) && PageOf(Fetched(answers, b), size, e)
    ensures Times(d) == Times(e)
  {
    ArrivalsAgree(answers, a, b);
    PageTimesUnique(Fetched(answers, a), Fetched(answers, b), size, d, e);
  }

  /** A page that does not claim more rows has dropped none of the fetched ones. */
  lemma NoMoreMeansNothingDropped(fetched: seq<Document>, size: nat, docs: seq<Document>)
    requires PageOf(fetched, size, docs) && |docs| != size
    ensures multiset(docs) == multiset(fetched)
  {
    var sorted: seq<Document> :| IsSorted(fetched, sorted) && docs == Window(sorted, 0, size);
    assert docs == sorted;
  }

  /** Nothing that was fetched is dropped if and only if it fits on the page. */
  lemma NothingDroppedExactly(fetched: seq<Document>, size: nat, docs: seq<Document>)
    requires PageOf(fetched, size, docs)
    ensures multiset(docs) == multiset(fetched) <==> |fetched| <= size
  {
    PageIsTopSelection(fetched, size, docs);
    assert |multiset(docs)| == |docs| && |multiset(fetched)| == |fetched|;
    if |fetched| < size {
      NoMoreMeansNothingDropped(fetched, size, docs);
    } else if |fetched| == size {
      var sorted: seq<Document> :| IsSorted(fetched, sorted) && docs == Window(sorted, 0, size);
      assert |sorted| == |multiset(sorted)| == size;
      assert docs == sorted;
    }
  }

  /** A page claims more rows exactly when a fetched row was dropped, unless the rows fetched
      are exactly a page: then it claims more although nothing was dropped. */
  lemma ClaimIsRightAboutFetchedExactly(shards: Shards, collection: Bytes, page: int, pageSize: int,
                                        orders: seq<seq<Bytes>>, arrival: seq<nat>, failed: set<nat>, docs: seq<Document>)
    requires Listed(shards, collection, orders) && Arrives(arrival, Needed(page, pageSize))
    requires PageOf(Fetched(Answers(shards, collection, page, pageSize, orders, failed), arrival),
                    EffectiveSize(pageSize), docs)
    ensures var fetched := Fetched(Answers(shards, collection, page, pageSize, orders, failed), arrival);
      (|docs| == EffectiveSize(pageSize) <==> multiset(docs) != multiset(fetched))
      <==> Available(orders, page, pageSize, failed, Needed(page, pageSize)) != EffectiveSize(pageSize)
  {
    FetchedCount(shards, collection, page, pageSize, orders, arrival, failed);
    FullExactly(shards, collection, page, pageSize, orders, arrival, failed, docs);
    NothingDroppedExactly(Fetched(Answers(shards, collection, page, pageSize, orders, failed), arrival),
                          EffectiveSize(pageSize), docs);
  }

  // The ids of the collection in the first n shards
  ghost function AllListed(orders: seq<seq<Bytes>>, n: nat): seq<Bytes>
    requires n <= |orders|
  {
    if n == 0 then [] else AllListed(orders, n - 1) + orders[n - 1]
  }

  // How many documents the collection has
  ghost function Total(orders: seq<seq<Bytes>>): nat {
    |AllListed(orders, |orders|)|
  }

  lemma {:induction false} AllListedExactly(shards: Shards, collection: Bytes, orders: seq<seq<Bytes>>, n: nat)
    requires Placed(shards) && Listed(shards, collection, orders) && n <= SHARD_COUNT
    ensures AllDifferent(AllListed(orders, n))
    ensures forall id :: id in AllListed(orders, n) <==> BelongsTo(Union(shards), id, collection) && Home(id) < n
    decreases n
  {
    if n > 0 {
      AllListedExactly(shards, collection, orders, n - 1);
      ShardRows(shards, collection, orders, n - 1);
      var before, last := AllListed(orders, n - 1), orders[n - 1];
      assert forall id :: id in before ==> id !in last;
      DifferentJoin(before, last);
    }
  }

  lemma DifferentJoin(a: seq<Bytes>, b: seq<Bytes>)
    requires AllDifferent(a) && AllDifferent(b) && forall x :: x in a ==> x !in b
    ensures AllDifferent(a + b)
  {
    forall i, j | 0 <= i < j < |a + b| ensures (a + b)[i] != (a + b)[j] {
      if i < |a| <= j {
        assert a[i] in a && b[j - |a|] in b;
      }
    }
  }

  ghost function IdsOf(docs: seq<Document>): (ids: seq<Bytes>)
    ensures |ids| == |docs| && forall i :: 0 <= i < |docs| ==> ids[i] == docs[i].id
  {
    seq(|docs|, i requires 0 <= i < |docs| => docs[i].id)
  }

  // Different documents of the collection are all of it if and only if they are as many
  lemma ShowsAllByCount(shards: Shards, collection: Bytes, orders: seq<seq<Bytes>>, docs: seq<Document>)
    requires Placed(shards) && Listed(shards, collection, orders) && DistinctDocs(docs)
    requires forall d :: d in docs ==> IsStoredRow(shards, collection, d)
    ensures |docs| <= Total(orders)
    ensures ShowsAll(shards, collection, docs) <==> |docs| == Total(orders)
  {
    var all, ids := AllListed(orders, SHARD_COUNT), IdsOf(docs);
    AllListedExactly(shards, collection, orders, SHARD_COUNT);
    MembersSize(all);
    assert AllDifferent(ids);
    MembersSize(ids);
    forall id | id in ids ensures id in all {
      var i :| 0 <= i < |ids| && ids[i] == id;
      assert docs[i] in docs;
    }
    SubsetSize(Members(ids), Members(all));
    ShownIds(docs);
    assert Members(all) <= Members(ids) <==> ShowsAll(shards, collection, docs) by {
      forall id ensures BelongsTo(Union(shards), id, collection) <==> id in Members(all) {}
      forall id ensures Shows(docs, id) <==> id in Members(ids) {}
    }
    assert |orders| == SHARD_COUNT && |Members(all)| == Total(orders) && |Members(ids)| == |docs|;
    if Members(all) <= Members(ids) {
      assert Members(all) == Members(ids);
    }
  }

  lemma ShownIds(docs: seq<Document>)
    ensures forall id :: Shows(docs, id) <==> id in IdsOf(docs)
  {
    forall id ensures Shows(docs, id) <==> id in IdsOf(docs) {
      if i :| 0 <= i < |docs| && IdsOf(docs)[i] == id {
        assert docs[i] in docs;
      }
      if d :| d in docs && d.id == id {
        var i :| 0 <= i < |docs| && docs[i] == d;
        assert IdsOf(docs)[i] == id;
      }
    }
  }

  /** On every page: a page claims more rows exactly when the collection has documents that it
      does not show, if and only if either the queried shards list a page of rows and the
      collection has more than that, or they list fewer and those are the whole collection. */
  lemma ClaimIsRightExactly(shards: Shards, collection: Bytes, page: int, pageSize: int, orders: seq<seq<Bytes>>,
                            arrival: seq<nat>, failed: set<nat>, docs: seq<Document>)
    requires Placed(shards) && Listed(shards, collection, orders) && Arrives(arrival, Needed(page, pageSize))
    requires PageOf(Fetched(Answers(shards, collection, page, pageSize, orders, failed), arrival),
                    EffectiveSize(pageSize), docs)
    ensures var available := Available(orders, page, pageSize, failed, Needed(page, pageSize));
      (|docs| == EffectiveSize(pageSize) <==> !ShowsAll(shards, collection, docs)) <==>
        if available >= EffectiveSize(pageSize) then Total(orders) > EffectiveSize(pageSize)
        else Total(orders) == available
  {
    PageContents(shards, collection, page, pageSize, orders, arrival, failed, docs);
    FetchedCount(shards, collection, page, pageSize, orders, arrival, failed);
    PageIsTopSelection(Fetched(Answers(shards, collection, page, pageSize, orders, failed), arrival),
                       EffectiveSize(pageSize), docs);
    ShowsAllByCount(shards, collection, orders, docs);
  }

  // When the claim of the first page is right
  ghost predicate FirstClaimOk(shards: Shards, collection: Bytes, pageSize: int, orders: seq<seq<Bytes>>, failed: set<nat>)
    requires |orders| == SHARD_COUNT
  {
    if EffectiveSize(pageSize) == 1 then Total(orders) == 0 || (0 !in failed && orders[0] != [] && Total(orders) >= 2)
    else AllListedFirst(shards, collection, orders, failed, ShardLimit(EffectiveSize(pageSize), SHARD_COUNT))
  }

  /** On the first page the claim is right if and only if there are no documents, or shard 0
      answers and, for pages of one, has a document that is not the only one, and for larger
      pages, which never claim more, has all documents within its limit. */
  lemma FirstPageClaimIsRightExactly(shards: Shards, collection: Bytes, pageSize: int, orders: seq<seq<Bytes>>,
                                     arrival: seq<nat>, failed: set<nat>, docs: seq<Document>)
    requires Placed(shards) && Listed(shards, collection, orders) && Arrives(arrival, Needed(1, pageSize))
    requires PageOf(Fetched(Answers(shards, collection, 1, pageSize, orders, failed), arrival),
                    EffectiveSize(pageSize), docs)
    ensures (|docs| == EffectiveSize(pageSize) <==> !ShowsAll(shards, collection, docs))
       <==> FirstClaimOk(shards, collection, pageSize, orders, failed)
  {
    var size := EffectiveSize(pageSize);
    FirstWindow(size);
    if size == 1 {
      ClaimIsRightExactly(shards, collection, 1, pageSize, orders, arrival, failed, docs);
      FirstAvailable(pageSize, orders, failed);
      OneIsListed(orders);
    } else {
      EarlyPagesNeverHaveMore(shards, collection, 1, pageSize, orders, arrival, failed, docs);
      OneShardPage(shards, collection, pageSize, orders, arrival, failed, docs);
      FirstListedIsCompleteExactly(shards, collection, orders, failed, ShardLimit(size, SHARD_COUNT), docs);
    }
  }

  lemma FirstAvailable(pageSize: int, orders: seq<seq<Bytes>>, failed: set<nat>)
    requires |orders| == SHARD_COUNT && EffectiveSize(pageSize) == 1
    ensures Needed(1, pageSize) == 1
    ensures Available(orders, 1, pageSize, failed, 1) == if 0 in failed || orders[0] == [] then 0 else 1
  {
    FirstWindow(1);
    assert Available(orders, 1, pageSize, failed, 0) == 0;
  }

  lemma OneIsListed(orders: seq<seq<Bytes>>)
    requires |orders| == SHARD_COUNT
    ensures Total(orders) >= |orders[0]|
  {
    ListedGrows(orders, 1, SHARD_COUNT);
    assert AllListed(orders, 0) == [];
  }

  lemma {:induction false} ListedGrows(orders: seq<seq<Bytes>>, m: nat, n: nat)
    requires m <= n <= |orders|
    ensures |AllListed(orders, m)| <= |AllListed(orders, n)|
    decreases n
  {
    if m < n {
      ListedGrows(orders, m, n - 1);
    }
  }

  lemma {:induction false} FetchedSize(answers: seq<seq<Document>>, arrival: seq<nat>, limit: nat)
    requires forall i :: 0 <= i < |arrival| ==> arrival[i] < |answers|
    requires forall s :: 0 <= s < |answers| ==> |answers[s]| <= limit
    ensures |Fetched(answers, arrival)| <= |arrival| * limit
    decreases arrival
  {
    if arrival != [] {
      var n := |arrival| - 1;
      FetchedSize(answers, arrival[..n], limit);
      assert |arrival| * limit == n * limit + limit;
    }
  }

  /** A page can only be full if the shards read for it may together return that many rows. */
  lemma FullPageNeedsEnoughShards(shards: Shards, collection: Bytes, page: int, pageSize: int, orders: seq<seq<Bytes>>,
                                  arrival: seq<nat>, failed: set<nat>, docs: seq<Document>)
    requires Listed(shards, collection, orders) && Arrives(arrival, Needed(page, pageSize))
    requires PageOf(Fetched(Answers(shards, collection, page, pageSize, orders, failed), arrival),
                    EffectiveSize(pageSize), docs)
    ensures |docs| <= Needed(page, pageSize) * ShardLimit(EffectiveSize(pageSize), SHARD_COUNT)
  {
    var fetched := Fetched(Answers(shards, collection, page, pageSize, orders, failed), arrival);
    assert |arrival| == |multiset(arrival)| == |multiset(UpTo(Needed(page, pageSize)))| == Needed(page, pageSize);
    FetchedSize(Answers(shards, collection, page, pageSize, orders, failed), arrival,
                ShardLimit(EffectiveSize(pageSize), SHARD_COUNT));
    PageIsTopSelection(fetched, EffectiveSize(pageSize), docs);
  }

  /** Within the first thousand rows a page of two or more never claims that there are more,
      however many documents the collection has. */
  lemma EarlyPagesNeverHaveMore(shards: Shards, collection: Bytes, page: int, pageSize: int, orders: seq<seq<Bytes>>,
                                arrival: seq<nat>, failed: set<nat>, docs: seq<Document>)
    requires Listed(shards, collection, orders) && Arrives(arrival, Needed(page, pageSize))
    requires PageOf(Fetched(Answers(shards, collection, page, pageSize, orders, failed), arrival),
                    EffectiveSize(pageSize), docs)
    requires pageSize != 1 && PageOffset(page, EffectiveSize(pageSize)) + EffectiveSize(pageSize) <= PAGE_UNIT
    ensures |docs| < EffectiveSize(pageSize)
  {
    FullPageNeedsEnoughShards(shards, collection, page, pageSize, orders, arrival, failed, docs);
    EarlyPageReadsOneShard(page, pageSize);
  }

  lemma EarlyPageReadsOneShard(page: int, pageSize: int)
    requires pageSize != 1 && PageOffset(page, EffectiveSize(pageSize)) + EffectiveSize(pageSize) <= PAGE_UNIT
    ensures Needed(page, pageSize) * ShardLimit(EffectiveSize(pageSize), SHARD_COUNT) < EffectiveSize(pageSize)
  {
    OneShardNeeded(PageOffset(page, EffectiveSize(pageSize)), EffectiveSize(pageSize));
  }

  lemma OneShardNeeded(offset: nat, size: nat)
    requires 1 < size && offset + size <= PAGE_UNIT
    ensures ShardsNeeded(offset, size, PAGE_UNIT, SHARD_COUNT) == 1
    ensures ShardLimit(size, SHARD_COUNT) < size
  {}

  ghost predicate Shows(docs: seq<Document>, id: Bytes) {
    exists d :: d in docs && d.id == id
  }

  ghost predicate BelongsTo(t: Table, id: Bytes, collection: Bytes) {
    id in t && t[id].collection == collection
  }

  // Every document of the collection is among the given ones
  ghost predicate ShowsAll(shards: Shards, collection: Bytes, docs: seq<Document>) {
    forall id :: BelongsTo(Union(shards), id, collection) ==> Shows(docs, id)
  }

  // Shard 0 lists within the limit all documents of the collection, or there are none
  ghost predicate AllListedFirst(shards: Shards, collection: Bytes, orders: seq<seq<Bytes>>, failed: set<nat>, limit: nat)
    requires |orders| == SHARD_COUNT
  {
    || (forall id :: !BelongsTo(Union(shards), id, collection))
    || (0 !in failed && |orders[0]| <= limit && forall id :: BelongsTo(Union(shards), id, collection) ==> Home(id) == 0)
  }

  /** What shard 0 lists is every document of the collection if and only if there is none, or
      its query succeeds, all documents are in shard 0, and they are no more than the limit. */
  lemma FirstListedIsCompleteExactly(shards: Shards, collection: Bytes, orders: seq<seq<Bytes>>, failed: set<nat>,
                                     limit: nat, docs: seq<Document>)
    requires Placed(shards) && Listed(shards, collection, orders)
    requires multiset(docs) == multiset(Documents(shards[0], FirstListed(orders, failed, limit), 0))
    ensures ShowsAll(shards, collection, docs) <==> AllListedFirst(shards, collection, orders, failed, limit)
  {
    var ids := FirstListed(orders, failed, limit);
    FoundExactly(shards[0], ids, docs);
    ShardRows(shards, collection, orders, 0);
    assert ShowsAll(shards, collection, docs) <==> forall id :: BelongsTo(Union(shards), id, collection) ==> id in ids;
    if 0 !in failed && |orders[0]| > limit {
      var x := orders[0][limit];
      assert x in orders[0] && x !in ids;
      assert BelongsTo(Union(shards), x, collection);
    } else if 0 !in failed {
      assert ids == orders[0];
    }
  }

  /** A search without paging returns every document of the collection if and only if there
      is none, or shard 0 answers, has all of them, and they are at most seven. */
  lemma FindIsCompleteExactly(shards: Shards, collection: Bytes, orders: seq<seq<Bytes>>, failed: set<nat>,
                              docs: seq<Document>)
    requires Placed(shards) && Listed(shards, collection, orders)
    requires multiset(docs) == multiset(Documents(shards[0], FirstListed(orders, failed, 7), 0))
    ensures ShowsAll(shards, collection, docs) <==> AllListedFirst(shards, collection, orders, failed, 7)
  {
    FirstListedIsCompleteExactly(shards, collection, orders, failed, 7, docs);
  }

  lemma FoundExactly(table: Table, ids: seq<Bytes>, docs: seq<Document>)
    requires forall id :: id in ids ==> id in table
    requires multiset(docs) == multiset(Documents(table, ids, 0))
    ensures forall id :: Shows(docs, id) <==> id in ids
  {
    var answer := Documents(table, ids, 0);
    assert forall d :: d in docs <==> d in multiset(docs);
    assert forall d :: d in answer <==> d in multiset(answer);
    forall id | id in ids ensures Shows(docs, id) {
      var i :| 0 <= i < |ids| && ids[i] == id;
      assert answer[i] in docs && answer[i].id == id;
    }
  }

  lemma ShardRows(shards: Shards, collection: Bytes, orders: seq<seq<Bytes>>, s: nat)
    requires Placed(shards) && Listed(shards, collection, orders) && s < SHARD_COUNT
    ensures forall id :: id in orders[s] <==> BelongsTo(Union(shards), id, collection) && Home(id) == s
  {
    PlacedAtHome(shards);
    forall id ensures id in orders[s] <==> BelongsTo(Union(shards), id, collection) && Home(id) == s {
      LookupIsRouted(shards, id);
    }
  }

  /** For every collection there is a store with a document of it that a search for one
      document does not find, since shard 0 has none. */
  lemma SomeDocumentIsNotFound(collection: Bytes, doc: Doc, time: int) returns (shards: Shards, id: Bytes)
    ensures Placed(shards) && id in Union(shards) && Union(shards)[id] == Row(collection, doc, time, time)
    ensures forall i :: i in shards[0] ==> shards[0][i].collection != collection
  {
    LastDigitSpreads(collection, time, 0, 0, 1);
    id := if GetShard(MakeId(collection, time, 0), collection) == 0
          then MakeId(collection, time, 1) else MakeId(collection, time, 0);
    GeneratedIdOwner(collection, time, 0);
    GeneratedIdOwner(collection, time, 1);
    assert Home(id) != 0;
    var empty: Shards := seq(SHARD_COUNT, _ => map[]);
    PutIsRouted(empty, id, Row(collection, doc, time, time));
    shards := empty[Home(id) := empty[Home(id)][id := Row(collection, doc, time, time)]];
  }

  // Some page of that size asks shard s for the row with that id
  ghost predicate OnSomePage(orders: seq<seq<Bytes>>, page: int, pageSize: int, s: nat, id: Bytes)
    requires s < |orders|
  {
    var size := EffectiveSize(pageSize);
    s < Needed(page, pageSize) &&
    id in Window(orders[s], ShardOffset(PageOffset(page, size), SHARD_COUNT, s), ShardLimit(size, SHARD_COUNT))
  }

  /** Of the rows of a shard, newest first, exactly those from a fixed rank on are fetched by
      some page; paging never shows the others. */
  lemma RowIsFetchedExactly(shards: Shards, collection: Bytes, orders: seq<seq<Bytes>>, pageSize: int, s: nat, rank: nat)
    requires Listed(shards, collection, orders) && s < SHARD_COUNT && rank < |orders[s]|
    ensures var size := EffectiveSize(pageSize);
      (exists page: int :: OnSomePage(orders, page, pageSize, s, orders[s][rank]))
      <==> rank >= Start(FirstReader(size, PAGE_UNIT, s), size, SHARD_COUNT, s)
  {
    var size := EffectiveSize(pageSize);
    forall page: int
      ensures OnSomePage(orders, page, pageSize, s, orders[s][rank])
         <==> Fetches(page, size, PAGE_UNIT, SHARD_COUNT, s, rank)
    {
      InWindowExactly(orders[s], Start(page, size, SHARD_COUNT, s), ShardLimit(size, SHARD_COUNT), rank);
    }
    RanksFetchedExactly(size, PAGE_UNIT, SHARD_COUNT, s, rank);
  }

  lemma InWindowExactly(ids: seq<Bytes>, offset: nat, limit: nat, rank: nat)
    requires rank < |ids| && forall i, j :: 0 <= i < j < |ids| ==> ids[i] != ids[j]
    ensures ids[rank] in Window(ids, offset, limit) <==> offset <= rank < offset + limit
  {
    var w := Window(ids, offset, limit);
    if offset <= rank < offset + limit {
      assert w[rank - offset] == ids[rank];
    }
    forall i | 0 <= i < |w| && w[i] == ids[rank] ensures offset + i == rank {
      assert w[i] == ids[offset + i];
    }
  }
}

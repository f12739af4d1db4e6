/**
 Which pages can be full at all, by the numbers alone: the store can put any number of
 documents of any collection in every shard.
 */
module PageLimits {
  import opened Fnv
  import opened DocumentIds
  import opened ShardMaps
  import opened ShardSpread
  import opened Paging
  import opened PageMerge
  import opened JsonEngine
  import opened PageTheorems
  import opened Wrappers

  // ---------- A store with many documents in every shard ----------

  // Ids of different numbers, all routed to one shard
  ghost predicate IdsIn(collection: Bytes, shard: nat, ids: seq<Bytes>) {
    forall i :: 0 <= i < |ids| ==> Owner(ids[i]) == Some(collection) && GetShard(ids[i], collection) == shard
  }

  // Ids with numbers below 100 * (n + 1)
  ghost predicate Below(collection: Bytes, ids: seq<Bytes>, n: nat) {
    forall i :: 0 <= i < |ids| ==> exists number: nat :: number < 100 * (n + 1) && ids[i] == MakeId(collection, 0, number)
  }

  lemma {:induction false} ManyIds(collection: Bytes, shard: nat, n: nat) returns (ids: seq<Bytes>)
    requires shard < SHARD_COUNT
    ensures |ids| == n && IdsIn(collection, shard, ids) && AllDifferent(ids) && Below(collection, ids, n)
  {
    if n == 0 {
      ids := [];
    } else {
      var before := ManyIds(collection, shard, n - 1);
      var number := EveryShardIsHit(collection, 0, n, shard);
      var id := MakeId(collection, 0, number);
      GeneratedIdOwner(collection, 0, number);
      forall i | 0 <= i < |before| ensures before[i] != id {
        var other: nat :| other < 100 * n && before[i] == MakeId(collection, 0, other);
        if before[i] == id {
          IdsDiffer(collection, 0, other, collection, 0, number);
        }
      }
      ids := before + [id];
      assert Below(collection, ids, n) by {
        forall i | 0 <= i < |ids|
          ensures exists number: nat :: number < 100 * (n + 1) && ids[i] == MakeId(collection, 0, number)
        {
          if i < |before| {
            var other: nat :| other < 100 * n && before[i] == MakeId(collection, 0, other);
            assert other < 100 * (n + 1) && ids[i] == MakeId(collection, 0, other);
          }
        }
      }
    }
  }

  ghost function TableOf(collection: Bytes, ids: seq<Bytes>): Table {
    map id | id in ids :: Row(collection, map[], 0, 0)
  }

  lemma TableListed(collection: Bytes, ids: seq<Bytes>)
    requires AllDifferent(ids)
    ensures IsOrdering(TableOf(collection, ids), collection, ids)
  {}

  // The first k shards have n documents each
  ghost predicate Filled(shards: Shards, collection: Bytes, orders: seq<seq<Bytes>>, n: nat, k: nat) {
    && Placed(shards) && Listed(shards, collection, orders)
    && (forall s :: 0 <= s < k && s < SHARD_COUNT ==> |orders[s]| == n)
  }

  lemma PlacedWith(shards: Shards, collection: Bytes, shard: nat, ids: seq<Bytes>)
    requires Placed(shards) && shard < SHARD_COUNT && IdsIn(collection, shard, ids)
    ensures Placed(shards[shard := TableOf(collection, ids)])
  {
    var after: Shards := shards[shard := TableOf(collection, ids)];
    forall s, id | 0 <= s < SHARD_COUNT && id in after[s]
      ensures Owner(id) == Some(after[s][id].collection) && s == GetShard(id, after[s][id].collection)
    {
      if s == shard {
        assert after[s] == TableOf(collection, ids) && after[s][id].collection == collection;
        var i :| 0 <= i < |ids| && ids[i] == id;
      } else {
        assert after[s] == shards[s];
      }
    }
    assert Placed(after);
  }

  lemma ListedWith(shards: Shards, collection: Bytes, orders: seq<seq<Bytes>>, shard: nat, ids: seq<Bytes>)
    requires Listed(shards, collection, orders) && shard < SHARD_COUNT && AllDifferent(ids)
    ensures Listed(shards[shard := TableOf(collection, ids)], collection, orders[shard := ids])
  {
    TableListed(collection, ids);
    var after: Shards, listed := shards[shard := TableOf(collection, ids)], orders[shard := ids];
    forall s: nat | s < SHARD_COUNT ensures IsOrdering(after[s], collection, listed[s]) {
      assert IsOrdering(shards[s], collection, orders[s]);
    }
  }

  lemma {:induction false} FilledStore(collection: Bytes, n: nat, k: nat) returns (shards: Shards, orders: seq<seq<Bytes>>)
    requires k <= SHARD_COUNT
    ensures Filled(shards, collection, orders, n, k)
  {
    if k == 0 {
      shards := seq(SHARD_COUNT, _ => map[]);
      orders := seq(SHARD_COUNT, _ => []);
    } else {
      var ss, os := FilledStore(collection, n, k - 1);
      var ids := ManyIds(collection, k - 1, n);
      shards := ss[k - 1 := TableOf(collection, ids)];
      orders := os[k - 1 := ids];
      PlacedWith(ss, collection, k - 1, ids);
      ListedWith(ss, collection, os, k - 1, ids);
    }
  }

  // ---------- When a page can be full ----------

  // A store and an order of its rows for which the page is full
  ghost predicate FullStore(shards: Shards, orders: seq<seq<Bytes>>, collection: Bytes, page: int, pageSize: int) {
    && Placed(shards) && Listed(shards, collection, orders)
    && Available(orders, page, pageSize, {}, Needed(page, pageSize)) >= EffectiveSize(pageSize)
  }

  lemma OneMore(n: nat, limit: nat)
    requires n > 0
    ensures n * limit == (n - 1) * limit + limit
  {}

  lemma {:induction false} AvailableAtMost(orders: seq<seq<Bytes>>, page: int, pageSize: int, failed: set<nat>, n: nat)
    requires n <= |orders| == SHARD_COUNT
    ensures Available(orders, page, pageSize, failed, n) <= n * ShardLimit(EffectiveSize(pageSize), SHARD_COUNT)
    decreases n
  {
    if n > 0 {
      AvailableAtMost(orders, page, pageSize, failed, n - 1);
      OneMore(n, ShardLimit(EffectiveSize(pageSize), SHARD_COUNT));
    }
  }

  lemma EnoughRows(offset: nat, size: nat, shard: nat)
    ensures RowsListed(offset + size + 2, ShardOffset(offset, SHARD_COUNT, shard), ShardLimit(size, SHARD_COUNT))
         == ShardLimit(size, SHARD_COUNT)
  {}

  lemma {:induction false} AvailableAll(orders: seq<seq<Bytes>>, page: int, pageSize: int, n: nat)
    requires n <= |orders| == SHARD_COUNT
    requires forall s :: 0 <= s < n ==>
      |orders[s]| == PageOffset(page, EffectiveSize(pageSize)) + EffectiveSize(pageSize) + 2
    ensures Available(orders, page, pageSize, {}, n) == n * ShardLimit(EffectiveSize(pageSize), SHARD_COUNT)
    decreases n
  {
    var size := EffectiveSize(pageSize);
    if n > 0 {
      AvailableAll(orders, page, pageSize, n - 1);
      OneMore(n, ShardLimit(size, SHARD_COUNT));
      EnoughRows(PageOffset(page, size), size, n - 1);
    }
  }

  /** For every collection: some store fills the page, so that it claims more rows, if and
      only if the limits of the shards it reads add up to its size. */
  lemma CanBeFullExactly(collection: Bytes, page: int, pageSize: int)
    ensures (exists shards: Shards, orders: seq<seq<Bytes>> :: FullStore(shards, orders, collection, page, pageSize))
       <==> Needed(page, pageSize) * ShardLimit(EffectiveSize(pageSize), SHARD_COUNT) >= EffectiveSize(pageSize)
  {
    var size, n := EffectiveSize(pageSize), Needed(page, pageSize);
    if shards: Shards, orders: seq<seq<Bytes>> :| FullStore(shards, orders, collection, page, pageSize) {
      AvailableAtMost(orders, page, pageSize, {}, n);
    }
    if n * ShardLimit(size, SHARD_COUNT) >= size {
      var shards, orders := FilledStore(collection, PageOffset(page, size) + size + 2, SHARD_COUNT);
      AvailableAll(orders, page, pageSize, n);
      assert FullStore(shards, orders, collection, page, pageSize);
    }
  }

  /** With the default page size no page before the 141st can be full, and every later one can. */
  lemma DefaultPagesFullExactly(collection: Bytes, page: int)
    ensures (exists shards: Shards, orders: seq<seq<Bytes>> :: FullStore(shards, orders, collection, page, 0))
       <==> page >= 141
  {
    CanBeFullExactly(collection, page, 0);
    assert EffectiveSize(0) == 100 && ShardLimit(100, SHARD_COUNT) == 7;
    assert PageOffset(page, 100) == if page <= 1 then 0 else 100 * page - 100;
  }
}

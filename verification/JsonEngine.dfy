/**
 The sharded document store. Each shard's table is a map; a statement on one table, and
 a transaction, happens entirely or not at all.

 What lies outside the engine is a parameter: clocks, random numbers, which statements
 the storage refuses, in which order a shard lists rows with equal timestamps and in
 which order shards answer.
 */
module JsonEngine {
  import opened Arithmetic
  import opened Fnv
  import opened DocumentIds
  import opened ShardMaps
  import opened BulkPlan
  import opened Paging
  import opened PageMerge
  import opened Wrappers

  datatype Error = UnknownCollection | SchemaViolation | NotFound | StorageFault

  datatype Result<T> = Ok(value: T) | Err(error: Error)

  datatype PageResult = PageResult(documents: seq<Document>, page: int, pageSize: nat, hasMore: bool)

  predicate HasType(v: JsonValue, t: FieldType) {
    match t
    case StringType => v.Text?
    case NumberType => v.Number?
    case BooleanType => v.Boolean?
    case OtherType => true
  }

  // Every field of the schema that the document has is of the declared type
  ghost predicate Conforms(schema: Schema, doc: Doc) {
    forall f :: f in schema && f in doc ==> HasType(doc[f], schema[f])
  }

  function Merged(row: Row, update: Doc, now: int): Row {
    row.(data := row.data + update, updatedAt := now)
  }

  // What an update sets has the new value, every other field the old one
  ghost predicate Merges(before: Doc, update: Doc, after: Doc) {
    && after.Keys == before.Keys + update.Keys
    && (forall f :: f in update ==> after[f] == update[f])
    && (forall f :: f in before && f !in update ==> after[f] == before[f])
  }

  // ---------- Bulk insertion, seen from the one table ----------

  // None of the first n rows goes to a shard that fails in its batch
  ghost predicate NoneFails(all: seq<Put>, failed: nat -> set<nat>, n: nat) {
    n <= |all| && forall k :: 0 <= k < n ==> Target(all[k]) !in failed(k / BATCH_SIZE)
  }

  /** What a bulk insertion into an existing collection leaves and reports. */
  ghost predicate BulkOutcome(before: Table, after: Table, all: seq<Put>, failed: nat -> set<nat>,
                              ids: seq<Bytes>, success: bool)
  {
    var n := |ids|;
    var end := Least(n + BATCH_SIZE, |all|);
    && n <= |all| && ids == Ids(all[..n]) && NoneFails(all, failed, n)
    && (success <==> n == |all|)
    && (!success ==> n % BATCH_SIZE == 0 && exists p :: p in all[n..end] && Target(p) in failed(n / BATCH_SIZE))
    && after == PutWithout(PutWithout(before, all[..n], {}), all[n..end], failed(n / BATCH_SIZE))
  }

  // The first n rows are stored and their ids collected
  ghost predicate BulkProgress(first: Table, now: Table, all: seq<Put>, failed: nat -> set<nat>, n: nat, ids: seq<Bytes>) {
    n <= |all| && ids == Ids(all[..n]) && NoneFails(all, failed, n) && now == PutWithout(first, all[..n], {})
  }

  lemma BatchNumber(b: nat)
    ensures b * BATCH_SIZE / BATCH_SIZE == b && b * BATCH_SIZE % BATCH_SIZE == 0
  {
    DivisionUnique(b * BATCH_SIZE, BATCH_SIZE, b, 0);
  }

  lemma BatchAdvances(first: Table, before: Table, after: Table, all: seq<Put>, failed: nat -> set<nat>,
                      b: nat, end: nat, ids: seq<Bytes>)
    requires var i := b * BATCH_SIZE;
      && i < end <= |all| && end <= i + BATCH_SIZE && BulkProgress(first, before, all, failed, i, ids)
      && after == PutWithout(before, all[i..end], failed(b))
      && forall p :: p in all[i..end] ==> Target(p) !in failed(b)
    ensures BulkProgress(first, after, all, failed, end, ids + Ids(all[b * BATCH_SIZE..end]))
  {
    var i := b * BATCH_SIZE;
    RowsJoin(first, all, i, end);
    NothingFails(before, all[i..end], failed(b));
    BatchIsClean(all, failed, b, end);
  }

  lemma RowsJoin(first: Table, all: seq<Put>, i: nat, end: nat)
    requires i <= end <= |all|
    ensures Ids(all[..end]) == Ids(all[..i]) + Ids(all[i..end])
    ensures PutWithout(first, all[..end], {}) == PutWithout(PutWithout(first, all[..i], {}), all[i..end], {})
  {
    assert all[..end] == all[..i] + all[i..end];
    PutsConcat(first, all[..i], all[i..end], {});
  }

  lemma InBatch(k: nat, b: nat)
    requires b * BATCH_SIZE <= k < b * BATCH_SIZE + BATCH_SIZE
    ensures k / BATCH_SIZE == b
  {
    DivisionUnique(k, BATCH_SIZE, b, k - b * BATCH_SIZE);
  }

  lemma BatchIsClean(all: seq<Put>, failed: nat -> set<nat>, b: nat, end: nat)
    requires var i := b * BATCH_SIZE;
      && i < end <= |all| && end <= i + BATCH_SIZE && NoneFails(all, failed, i)
      && forall p :: p in all[i..end] ==> Target(p) !in failed(b)
    ensures NoneFails(all, failed, end)
  {
    var i := b * BATCH_SIZE;
    forall k | i <= k < end ensures Target(all[k]) !in failed(k / BATCH_SIZE) {
      InBatch(k, b);
      assert all[i..end][k - i] == all[k];
    }
  }

  lemma BatchFails(first: Table, before: Table, after: Table, all: seq<Put>, failed: nat -> set<nat>,
                   b: nat, end: nat, ids: seq<Bytes>)
    requires var i := b * BATCH_SIZE;
      && i < |all| && end == Least(i + BATCH_SIZE, |all|)
      && BulkProgress(first, before, all, failed, i, ids)
      && after == PutWithout(before, all[i..end], failed(b))
      && exists p :: p in all[i..end] && Target(p) in failed(b)
    ensures BulkOutcome(first, after, all, failed, ids, false)
  {
    BatchNumber(b);
  }

  lemma BulkCompletes(first: Table, after: Table, all: seq<Put>, failed: nat -> set<nat>, ids: seq<Bytes>)
    requires BulkProgress(first, after, all, failed, |all|, ids)
    ensures BulkOutcome(first, after, all, failed, ids, true)
  {
    assert all[..|all|] == all;
  }

  // The first row from number k on that goes to a shard which fails in its batch
  ghost function FirstFailing(all: seq<Put>, failed: nat -> set<nat>, k: nat): (stop: nat)
    requires k <= |all|
    ensures k <= stop <= |all| && forall i :: k <= i < stop ==> Target(all[i]) !in failed(i / BATCH_SIZE)
    ensures stop < |all| ==> Target(all[stop]) in failed(stop / BATCH_SIZE)
    decreases |all| - k
  {
    if k == |all| || Target(all[k]) in failed(k / BATCH_SIZE) then k else FirstFailing(all, failed, k + 1)
  }

  /** A bulk insertion on one table: whole batches up to the one in which a shard fails, and of
      that one the rows of the other shards. */
  ghost function AfterBulk(t: Table, all: seq<Put>, failed: nat -> set<nat>): Table {
    var stop := FirstFailing(all, failed, 0);
    var n := if stop == |all| then stop else stop / BATCH_SIZE * BATCH_SIZE;
    PutWithout(PutWithout(t, all[..n], {}), all[n..Least(n + BATCH_SIZE, |all|)], failed(n / BATCH_SIZE))
  }

  lemma StopsBy(all: seq<Put>, failed: nat -> set<nat>, n: nat, k: nat)
    requires NoneFails(all, failed, n) && n % BATCH_SIZE == 0
    requires n <= k < |all| && k < n + BATCH_SIZE && Target(all[k]) in failed(n / BATCH_SIZE)
    ensures var stop := FirstFailing(all, failed, 0); stop < |all| && stop / BATCH_SIZE * BATCH_SIZE == n
  {
    var stop := FirstFailing(all, failed, 0);
    InBatch(k, n / BATCH_SIZE);
    assert n <= stop <= k;
    InBatch(stop, n / BATCH_SIZE);
  }

  lemma FailingRow(all: seq<Put>, n: nat, end: nat, failed: set<nat>) returns (k: nat)
    requires n <= end <= |all| && exists p :: p in all[n..end] && Target(p) in failed
    ensures n <= k < end && Target(all[k]) in failed
  {
    var p :| p in all[n..end] && Target(p) in failed;
    var j :| 0 <= j < end - n && all[n..end][j] == p;
    k := n + j;
  }

  lemma StopsInBatch(all: seq<Put>, failed: nat -> set<nat>, n: nat)
    requires NoneFails(all, failed, n) && n % BATCH_SIZE == 0
    requires exists p :: p in all[n..Least(n + BATCH_SIZE, |all|)] && Target(p) in failed(n / BATCH_SIZE)
    ensures var stop := FirstFailing(all, failed, 0); stop < |all| && stop / BATCH_SIZE * BATCH_SIZE == n
  {
    var k := FailingRow(all, n, Least(n + BATCH_SIZE, |all|), failed(n / BATCH_SIZE));
    StopsBy(all, failed, n, k);
  }

  /** The outcome of a bulk insertion is determined by the shards that fail. */
  lemma BulkIsDetermined(before: Table, after: Table, all: seq<Put>, failed: nat -> set<nat>,
                         ids: seq<Bytes>, success: bool)
    requires BulkOutcome(before, after, all, failed, ids, success)
    ensures after == AfterBulk(before, all, failed)
    ensures success <==> FirstFailing(all, failed, 0) == |all|
  {
    if success {
      assert FirstFailing(all, failed, 0) == |all|;
    } else {
      StopsInBatch(all, failed, |ids|);
    }
  }

  ghost predicate StoredAs(t: Table, id: Bytes, row: Row) {
    id in t && t[id] == row
  }

  lemma FirstRowsAreStored(before: Table, after: Table, all: seq<Put>, failed: nat -> set<nat>,
                           ids: seq<Bytes>, success: bool, k: nat)
    requires DistinctIds(all) && BulkOutcome(before, after, all, failed, ids, success) && k < |ids|
    ensures ids[k] == all[k].id && StoredAs(after, all[k].id, all[k].row)
  {
    var n := |ids|;
    var end := Least(n + BATCH_SIZE, |all|);
    IsStored(before, all[..n], {}, k);
    NotStored(PutWithout(before, all[..n], {}), all[n..end], failed(n / BATCH_SIZE), all[k].id);
  }

  /** After a bulk insertion every returned id names its document, which is stored under it, as
      made and updated when its batch of 500 read the clock. */
  lemma ReturnedRowsAreStored(before: Table, after: Table, collection: Bytes, docs: seq<Doc>, clocks: nat -> int,
                              failed: nat -> set<nat>, ids: seq<Bytes>, success: bool, k: nat)
    requires BulkOutcome(before, after, AllPuts(collection, docs, clocks), failed, ids, success) && k < |ids|
    ensures k < |docs| && ids[k] == MakeId(collection, clocks(k / 500), k)
    ensures StoredAs(after, ids[k], Row(collection, docs[k], clocks(k / 500), clocks(k / 500)))
  {
    AllIdsDistinct(collection, docs, clocks);
    FirstRowsAreStored(before, after, AllPuts(collection, docs, clocks), failed, ids, success, k);
  }

  lemma DistinctPart(all: seq<Put>, n: nat, end: nat, k: nat)
    requires DistinctIds(all) && n <= k < end <= |all|
    ensures DistinctIds(all[n..end]) && all[n..end][k - n] == all[k]
  {}

  lemma FailedRowsAreStored(before: Table, after: Table, all: seq<Put>, failed: nat -> set<nat>, ids: seq<Bytes>, k: nat)
    requires DistinctIds(all) && BulkOutcome(before, after, all, failed, ids, false)
    requires |ids| <= k < Least(|ids| + BATCH_SIZE, |all|)
    ensures Target(all[k]) !in failed(|ids| / BATCH_SIZE) ==> StoredAs(after, all[k].id, all[k].row)
    ensures Target(all[k]) in failed(|ids| / BATCH_SIZE) && all[k].id !in before ==> all[k].id !in after
  {
    var n := |ids|;
    var end := Least(n + BATCH_SIZE, |all|);
    var t := PutWithout(before, all[..n], {});
    DistinctPart(all, n, end, k);
    if Target(all[k]) !in failed(n / BATCH_SIZE) {
      IsStored(t, all[n..end], failed(n / BATCH_SIZE), k - n);
    } else {
      NotStored(before, all[..n], {}, all[k].id);
      NotStored(t, all[n..end], failed(n / BATCH_SIZE), all[k].id);
    }
  }

  /** Of the batch that failed exactly the documents whose shard did not fail are stored. */
  lemma FailedBatchIsPartlyStored(before: Table, after: Table, collection: Bytes, docs: seq<Doc>, clocks: nat -> int,
                                  failed: nat -> set<nat>, ids: seq<Bytes>, k: nat)
    requires BulkOutcome(before, after, AllPuts(collection, docs, clocks), failed, ids, false)
    requires |ids| <= k < Least(|ids| + 500, |docs|)
    ensures var id, now := MakeId(collection, clocks(k / 500), k), clocks(k / 500);
      && (GetShard(id, collection) !in failed(k / 500) ==> StoredAs(after, id, Row(collection, docs[k], now, now)))
      && (GetShard(id, collection) in failed(k / 500) && id !in before ==> id !in after)
  {
    AllIdsDistinct(collection, docs, clocks);
    InBatch(k, |ids| / BATCH_SIZE);
    FailedRowsAreStored(before, after, AllPuts(collection, docs, clocks), failed, ids, k);
  }

  // What a bulk insertion into an existing collection does, document by document
  ghost predicate DocumentsStored(after: Table, collection: Bytes, docs: seq<Doc>, clocks: nat -> int, n: nat) {
    n <= |docs| && forall k :: 0 <= k < n ==>
      StoredAs(after, MakeId(collection, clocks(k / 500), k), Row(collection, docs[k], clocks(k / 500), clocks(k / 500)))
  }

  ghost predicate PartlyStored(after: Table, collection: Bytes, docs: seq<Doc>, clocks: nat -> int, failed: set<nat>, n: nat) {
    forall k :: n <= k < Least(n + 500, |docs|) ==>
      var id := MakeId(collection, clocks(k / 500), k);
      GetShard(id, collection) !in failed ==> StoredAs(after, id, Row(collection, docs[k], clocks(k / 500), clocks(k / 500)))
  }

  lemma OutcomeMeans(before: Table, after: Table, collection: Bytes, docs: seq<Doc>, clocks: nat -> int,
                     failed: nat -> set<nat>, ids: seq<Bytes>, success: bool)
    requires BulkOutcome(before, after, AllPuts(collection, docs, clocks), failed, ids, success)
    ensures forall k :: 0 <= k < |ids| ==> ids[k] == MakeId(collection, clocks(k / 500), k)
    ensures DocumentsStored(after, collection, docs, clocks, |ids|)
    ensures !success ==> PartlyStored(after, collection, docs, clocks, failed(|ids| / 500), |ids|)
  {
    forall k | 0 <= k < |ids|
      ensures ids[k] == MakeId(collection, clocks(k / 500), k)
      ensures StoredAs(after, MakeId(collection, clocks(k / 500), k), Row(collection, docs[k], clocks(k / 500), clocks(k / 500)))
    {
      ReturnedRowsAreStored(before, after, collection, docs, clocks, failed, ids, success, k);
    }
    if !success {
      forall k | |ids| <= k < Least(|ids| + 500, |docs|)
        ensures var id := MakeId(collection, clocks(k / 500), k);
          GetShard(id, collection) !in failed(|ids| / 500)
          ==> StoredAs(after, id, Row(collection, docs[k], clocks(k / 500), clocks(k / 500)))
      {
        InBatch(k, |ids| / BATCH_SIZE);
        FailedBatchIsPartlyStored(before, after, collection, docs, clocks, failed, ids, k);
      }
    }
  }

  /** The same for one batch. */
  lemma BatchMeans(before: Table, collection: Bytes, docs: seq<Doc>, now: int, baseIndex: nat, failed: set<nat>, k: nat)
    requires k < |docs|
    ensures var id := MakeId(collection, now, baseIndex + k);
      GetShard(id, collection) !in failed ==>
        StoredAs(PutWithout(before, BatchPuts(collection, docs, now, baseIndex), failed), id, Row(collection, docs[k], now, now))
  {
    var puts := BatchPuts(collection, docs, now, baseIndex);
    forall i, j | 0 <= i < j < |puts| ensures puts[i].id != puts[j].id {
      if puts[i].id == puts[j].id {
        IdsDiffer(collection, now, baseIndex + i, collection, now, baseIndex + j);
      }
    }
    if Target(puts[k]) !in failed {
      IsStored(before, puts, failed, k);
    }
  }

  /** And that happens: if the shard of the first document fails, the first document of a bulk
      insertion is not stored although the second is, and no id is returned. */
  lemma FirstFailsSecondIsStored(t: Table, collection: Bytes, docs: seq<Doc>, clocks: nat -> int)
    requires |docs| >= 2 && AllPuts(collection, docs, clocks)[0].id !in t
    ensures var all := AllPuts(collection, docs, clocks);
      var after := AfterBulk(t, all, _ => {Target(all[0])});
      && FirstFailing(all, _ => {Target(all[0])}, 0) == 0 && MakeId(collection, clocks(0), 0) !in after
      && StoredAs(after, MakeId(collection, clocks(0), 1), Row(collection, docs[1], clocks(0), clocks(0)))
  {
    var all := AllPuts(collection, docs, clocks);
    var failed := {Target(all[0])};
    AllIdsDistinct(collection, docs, clocks);
    FirstTwoSpread(collection, docs, clocks);
    var batch := all[0..Least(BATCH_SIZE, |all|)];
    DistinctPart(all, 0, |batch|, 0);
    DistinctPart(all, 0, |batch|, 1);
    NotStored(t, batch, failed, all[0].id);
    IsStored(t, batch, failed, 1);
    assert 0 / BATCH_SIZE == 0 && 1 / BATCH_SIZE == 0;
    StopsAtFirst(t, all, _ => failed);
  }

  lemma StopsAtFirst(t: Table, all: seq<Put>, failed: nat -> set<nat>)
    requires all != [] && Target(all[0]) in failed(0)
    ensures FirstFailing(all, failed, 0) == 0
    ensures AfterBulk(t, all, failed) == PutWithout(t, all[0..Least(BATCH_SIZE, |all|)], failed(0))
  {
    assert 0 / BATCH_SIZE == 0;
    assert all[..0] == [] && PutWithout(t, [], {}) == t;
  }

  lemma FirstTwoSpread(collection: Bytes, docs: seq<Doc>, clocks: nat -> int)
    requires |docs| >= 2
    ensures Target(AllPuts(collection, docs, clocks)[0]) != Target(AllPuts(collection, docs, clocks)[1])
  {
    LastDigitSpreads(collection, clocks(0), 0, 0, 1);
    assert 0 / BATCH_SIZE == 0 && 1 / BATCH_SIZE == 0;
  }

  /** Ids that were not generated in the call are untouched. */
  lemma OtherRowsAreUntouched(before: Table, after: Table, collection: Bytes, docs: seq<Doc>, clocks: nat -> int,
                              failed: nat -> set<nat>, ids: seq<Bytes>, success: bool, id: Bytes)
    requires BulkOutcome(before, after, AllPuts(collection, docs, clocks), failed, ids, success)
    requires forall k: nat :: k < |docs| ==> MakeId(collection, clocks(k / 500), k) != id
    ensures id in after <==> id in before
    ensures id in before ==> after[id] == before[id]
  {
    OtherIdsAreUntouched(before, after, AllPuts(collection, docs, clocks), failed, ids, success, id);
  }

  lemma OtherIdsAreUntouched(before: Table, after: Table, all: seq<Put>, failed: nat -> set<nat>,
                             ids: seq<Bytes>, success: bool, id: Bytes)
    requires BulkOutcome(before, after, all, failed, ids, success)
    requires forall k :: 0 <= k < |all| ==> all[k].id != id
    ensures id in after <==> id in before
    ensures id in before ==> after[id] == before[id]
  {
    var n := |ids|;
    NotStored(before, all[..n], {}, id);
    NotStored(PutWithout(before, all[..n], {}), all[n..Least(n + BATCH_SIZE, |all|)], failed(n / BATCH_SIZE), id);
  }

  /** Exactly the shards that get rows have a batch, and it is their group. */
  ghost predicate IsGrouping(shardBatches: map<nat, seq<Put>>, puts: seq<Put>) {
    && (forall s :: s in shardBatches <==> Group(puts, s) != [])
    && (forall s :: s in shardBatches ==> s < SHARD_COUNT && shardBatches[s] == Group(puts, s))
  }

  lemma GroupingExtends(shardBatches: map<nat, seq<Put>>, puts: seq<Put>, p: Put)
    requires IsGrouping(shardBatches, puts)
    ensures var batch := if Target(p) in shardBatches then shardBatches[Target(p)] else [];
      IsGrouping(shardBatches[Target(p) := batch + [p]], puts + [p])
  {
    assert (puts + [p])[..|puts|] == puts;
    forall s ensures Group(puts + [p], s) == Group(puts, s) + if Target(p) == s then [p] else [] {}
  }

  lemma NextGrouped(shardBatches: map<nat, seq<Put>>, puts: seq<Put>, idx: nat)
    requires idx < |puts| && IsGrouping(shardBatches, puts[..idx])
    ensures var p := puts[idx]; var batch := if Target(p) in shardBatches then shardBatches[Target(p)] else [];
      IsGrouping(shardBatches[Target(p) := batch + [p]], puts[..idx + 1])
  {
    GroupingExtends(shardBatches, puts[..idx], puts[idx]);
    assert puts[..idx + 1] == puts[..idx] + [puts[idx]];
  }

  lemma FailsExactly(shardBatches: map<nat, seq<Put>>, puts: seq<Put>, failed: set<nat>)
    requires IsGrouping(shardBatches, puts)
    ensures shardBatches.Keys * failed == {} <==> forall p :: p in puts ==> Target(p) !in failed
  {
    forall s ensures s in shardBatches <==> exists p :: p in puts && Target(p) == s {
      GroupMembers(puts, s);
      assert Group(puts, s) != [] ==> Group(puts, s)[0] in Group(puts, s);
    }
    if forall p :: p in puts ==> Target(p) !in failed {
      assert forall s :: s in shardBatches.Keys * failed ==> s in shardBatches;
    } else {
      var p :| p in puts && Target(p) in failed;
      assert Target(p) in shardBatches.Keys * failed;
    }
  }

  lemma GroupsAreBalanced(shardBatches: map<nat, seq<Put>>, collection: Bytes, docs: seq<Doc>, now: int, baseIndex: nat)
    requires IsGrouping(shardBatches, BatchPuts(collection, docs, now, baseIndex))
    ensures baseIndex % 10 == 0 ==> forall s :: s in shardBatches ==> |shardBatches[s]| <= (|docs| + 9) / 10
  {
    if baseIndex % 10 == 0 {
      forall s | s in shardBatches ensures |shardBatches[s]| <= (|docs| + 9) / 10 {
        LoadIsBalanced(collection, docs, now, baseIndex, s);
      }
    }
  }

  // The shards in done have their group, the others are as before
  ghost predicate StoredFor(before: Shards, after: Shards, puts: seq<Put>, done: set<nat>) {
    forall s :: 0 <= s < SHARD_COUNT ==>
      after[s] == (if s in done then PutAll(before[s], Group(puts, s)) else before[s])
  }

  lemma BatchGenerated(collection: Bytes, docs: seq<Doc>, now: int, baseIndex: nat)
    ensures Generated(BatchPuts(collection, docs, now, baseIndex))
  {
    var puts := BatchPuts(collection, docs, now, baseIndex);
    forall p | p in puts ensures Owner(p.id) == Some(p.row.collection) {
      var k :| 0 <= k < |puts| && puts[k] == p;
      GeneratedIdOwner(collection, now, baseIndex + k);
    }
  }

  lemma BatchStored(before: Shards, after: Shards, shardBatches: map<nat, seq<Put>>,
                    collection: Bytes, docs: seq<Doc>, now: int, baseIndex: nat, failed: set<nat>)
    requires Placed(before)
    requires var puts := BatchPuts(collection, docs, now, baseIndex);
      IsGrouping(shardBatches, puts) && StoredFor(before, after, puts, shardBatches.Keys - failed)
    ensures Placed(after)
    ensures Union(after) == PutWithout(Union(before), BatchPuts(collection, docs, now, baseIndex), failed)
  {
    var puts := BatchPuts(collection, docs, now, baseIndex);
    BatchGenerated(collection, docs, now, baseIndex);
    RowwiseIsUnion(before, puts, failed);
    forall s | 0 <= s < SHARD_COUNT ensures after[s] == PutRouted(before, puts, failed)[s] {
      GroupwiseIsRowwise(before, puts, failed, s);
    }
    assert after == PutRouted(before, puts, failed);
  }

  // ---------- What a page is made of ----------

  // How many shards a page reads
  function Needed(page: int, pageSize: int): (needed: nat)
    ensures needed <= SHARD_COUNT
  {
    var size := EffectiveSize(pageSize);
    ShardsNeeded(PageOffset(page, size), size, PAGE_UNIT, SHARD_COUNT)
  }

  // An order for every shard's rows of the collection
  ghost predicate Listed(shards: Shards, collection: Bytes, orders: seq<seq<Bytes>>) {
    |orders| == SHARD_COUNT && forall s :: 0 <= s < SHARD_COUNT ==> IsOrdering(shards[s], collection, orders[s])
  }

  function UpTo(n: nat): (s: seq<nat>)
    ensures |s| == n && forall i :: 0 <= i < n ==> s[i] == i
  {
    seq(n, i => i)
  }

  /** Every queried shard answers once, in some order. */
  ghost predicate Arrives(arrival: seq<nat>, needed: nat) {
    && multiset(arrival) == multiset(UpTo(needed))
    && forall i :: 0 <= i < |arrival| ==> arrival[i] < needed
  }

  ghost function ShardAnswer(shards: Shards, collection: Bytes, page: int, pageSize: int,
                             orders: seq<seq<Bytes>>, s: nat): (docs: seq<Document>)
    requires Listed(shards, collection, orders) && s < SHARD_COUNT
    ensures |docs| <= ShardLimit(EffectiveSize(pageSize), SHARD_COUNT)
  {
    var size := EffectiveSize(pageSize);
    Documents(shards[s], Window(orders[s], ShardOffset(PageOffset(page, size), SHARD_COUNT, s),
                                ShardLimit(size, SHARD_COUNT)), s)
  }

  // What each queried shard answers; a shard that fails contributes nothing
  ghost function Answers(shards: Shards, collection: Bytes, page: int, pageSize: int,
                         orders: seq<seq<Bytes>>, failed: set<nat>): (answers: seq<seq<Document>>)
    requires Listed(shards, collection, orders)
    ensures |answers| == Needed(page, pageSize)
  {
    seq(Needed(page, pageSize), s requires 0 <= s < SHARD_COUNT =>
      if s in failed then [] else ShardAnswer(shards, collection, page, pageSize, orders, s))
  }

  lemma FirstWindow(size: nat)
    requires 1 <= size <= 1000
    ensures PageOffset(1, size) == 0 && ShardOffset(PageOffset(1, size), SHARD_COUNT, 0) == 0
    ensures ShardLimit(size, SHARD_COUNT) <= size
  {}

  lemma OnlyShardZero(answers: seq<seq<Document>>, arrival: seq<nat>)
    requires |answers| == 1 && Arrives(arrival, 1)
    ensures Fetched(answers, arrival) == answers[0]
  {
    assert |arrival| == |multiset(arrival)| == |multiset(UpTo(1))| == 1;
    assert arrival == [0] && arrival[..0] == [];
  }

  // A shard lists a window of its rows newest first
  lemma AnswerDescending(table: Table, collection: Bytes, ord: seq<Bytes>, offset: nat, limit: nat, shard: nat)
    requires IsOrdering(table, collection, ord)
    ensures Descending(Documents(table, Window(ord, offset, limit), shard))
  {}

  // Sorting an answer that is sorted and fits on the page changes at most the order of ties
  lemma WholePage(answer: seq<Document>, size: nat, docs: seq<Document>)
    requires PageOf(answer, size, docs) && Descending(answer) && |answer| <= size
    ensures multiset(docs) == multiset(answer) && Times(docs) == Times(answer)
  {
    var sorted: seq<Document> :| IsSorted(answer, sorted) && docs == Window(sorted, 0, size);
    assert |sorted| == |multiset(sorted)| == |multiset(answer)| == |answer|;
    assert Window(sorted, 0, size) == sorted;
    assert IsSorted(answer, answer) && answer == Window(answer, 0, size);
    PageTimesUnique(answer, answer, size, docs, answer);
  }

  // What shard 0 lists on the first page; nothing if its query fails
  ghost function FirstListed(orders: seq<seq<Bytes>>, failed: set<nat>, limit: nat): seq<Bytes>
    requires |orders| == SHARD_COUNT
  {
    if 0 in failed then [] else Window(orders[0], 0, limit)
  }

  lemma FirstAnswer(shards: Shards, collection: Bytes, pageSize: int, orders: seq<seq<Bytes>>, failed: set<nat>)
    requires Listed(shards, collection, orders) && Needed(1, pageSize) == 1
    ensures var ids := FirstListed(orders, failed, ShardLimit(EffectiveSize(pageSize), SHARD_COUNT));
      var answer := Answers(shards, collection, 1, pageSize, orders, failed)[0];
      answer == Documents(shards[0], ids, 0) && Descending(answer)
  {
    var size := EffectiveSize(pageSize);
    FirstWindow(size);
    AnswerDescending(shards[0], collection, orders[0], 0, ShardLimit(size, SHARD_COUNT), 0);
  }

  /** The first page reads shard 0 alone and returns everything that shard answers. */
  lemma OneShardPage(shards: Shards, collection: Bytes, pageSize: int, orders: seq<seq<Bytes>>,
                     arrival: seq<nat>, failed: set<nat>, docs: seq<Document>)
    requires Listed(shards, collection, orders) && Arrives(arrival, Needed(1, pageSize))
    requires PageOf(Fetched(Answers(shards, collection, 1, pageSize, orders, failed), arrival), EffectiveSize(pageSize), docs)
    ensures var ids := FirstListed(orders, failed, ShardLimit(EffectiveSize(pageSize), SHARD_COUNT));
      var answer := Documents(shards[0], ids, 0);
      multiset(docs) == multiset(answer) && Times(docs) == Times(answer)
  {
    var size := EffectiveSize(pageSize);
    var answers := Answers(shards, collection, 1, pageSize, orders, failed);
    FirstWindow(size);
    OnlyShardZero(answers, arrival);
    FirstAnswer(shards, collection, pageSize, orders, failed);
    WholePage(answers[0], size, docs);
  }

  // What a page of one row from shard 0 shows
  lemma FirstFound(table: Table, collection: Bytes, orders: seq<seq<Bytes>>, failed: set<nat>, docs: seq<Document>)
    requires |orders| == SHARD_COUNT && IsOrdering(table, collection, orders[0])
    requires multiset(docs) == multiset(Documents(table, FirstListed(orders, failed, 1), 0))
    ensures docs == [] <==> 0 in failed || forall id :: id in table ==> table[id].collection != collection
    ensures docs != [] ==>
      && docs[0].id in table && table[docs[0].id].collection == collection
      && docs[0] == DocumentOf(docs[0].id, table[docs[0].id], 0)
      && forall id :: id in table && table[id].collection == collection ==> table[id].updatedAt <= docs[0].updatedAt
  {
    var ids := FirstListed(orders, failed, 1);
    assert |docs| == |multiset(docs)| == |multiset(Documents(table, ids, 0))| == |ids|;
    if docs == [] {
      assert 0 in failed || orders[0] == [];
    } else {
      assert ids == [orders[0][0]] && docs[0] in multiset(docs);
    }
  }

  // ---------- What a page shows of a row ----------

  // A document as stored in the shard it names
  ghost predicate ShowsRow(shards: Shards, collection: Bytes, d: Document) {
    && d.shardId < SHARD_COUNT && d.id in shards[d.shardId]
    && var row := shards[d.shardId][d.id];
    && row.collection == collection && row.data == d.data
    && row.createdAt == d.createdAt && row.updatedAt == d.updatedAt
  }

  ghost predicate AllShowRows(shards: Shards, collection: Bytes, docs: seq<Document>) {
    forall d :: d in docs ==> ShowsRow(shards, collection, d)
  }

  lemma WindowShowsRows(shards: Shards, collection: Bytes, orders: seq<seq<Bytes>>, offset: nat, limit: nat, s: nat)
    requires Listed(shards, collection, orders) && s < SHARD_COUNT
    ensures var docs := Documents(shards[s], Window(orders[s], offset, limit), s);
      AllShowRows(shards, collection, docs) && forall d :: d in docs ==> d.shardId == s
  {
    var ids := Window(orders[s], offset, limit);
    var docs := Documents(shards[s], ids, s);
    forall d | d in docs ensures ShowsRow(shards, collection, d) && d.shardId == s {
      var i :| 0 <= i < |docs| && docs[i] == d;
      assert ids[i] in orders[s];
    }
  }

  lemma {:induction false} FetchedShowRows(shards: Shards, collection: Bytes, answers: seq<seq<Document>>, arrival: seq<nat>)
    requires forall i :: 0 <= i < |arrival| ==> arrival[i] < |answers|
    requires forall s :: 0 <= s < |answers| ==> AllShowRows(shards, collection, answers[s])
    ensures AllShowRows(shards, collection, Fetched(answers, arrival))
    decreases arrival
  {
    if arrival != [] {
      FetchedShowRows(shards, collection, answers, arrival[..|arrival| - 1]);
    }
  }

  lemma PageShowsRows(shards: Shards, collection: Bytes, page: int, pageSize: int, orders: seq<seq<Bytes>>,
                      arrival: seq<nat>, failed: set<nat>, docs: seq<Document>)
    requires Listed(shards, collection, orders) && Arrives(arrival, Needed(page, pageSize))
    requires PageOf(Fetched(Answers(shards, collection, page, pageSize, orders, failed), arrival),
                    EffectiveSize(pageSize), docs)
    ensures AllShowRows(shards, collection, docs)
  {
    var size := EffectiveSize(pageSize);
    var answers := Answers(shards, collection, page, pageSize, orders, failed);
    forall s | 0 <= s < |answers| ensures AllShowRows(shards, collection, answers[s]) {
      WindowShowsRows(shards, collection, orders, ShardOffset(PageOffset(page, size), SHARD_COUNT, s),
                      ShardLimit(size, SHARD_COUNT), s);
    }
    FetchedShowRows(shards, collection, answers, arrival);
    PageIsFetched(Fetched(answers, arrival), size, docs);
  }

  lemma PageIsFetched(fetched: seq<Document>, size: nat, docs: seq<Document>)
    requires PageOf(fetched, size, docs)
    ensures forall d :: d in docs ==> d in fetched
  {
    var s: seq<Document> :| IsSorted(fetched, s) && docs == Window(s, 0, size);
    assert forall d :: d in s <==> d in multiset(s);
    assert forall d :: d in fetched <==> d in multiset(fetched);
  }

  lemma ListedFirst(table: Table, ids: seq<Bytes>, docs: seq<Document>)
    requires forall id :: id in ids ==> id in table
    requires multiset(docs) == multiset(Documents(table, ids, 0))
    ensures forall d :: d in docs ==> d.shardId == 0
  {
    forall d | d in docs ensures d.shardId == 0 {
      assert d in multiset(docs);
    }
  }

  // ---------- When a page is full ----------

  // How many rows a shard answers with
  function RowsListed(rows: nat, offset: nat, limit: nat): (r: nat)
    ensures r <= limit
  {
    if rows <= offset then 0 else Least(limit, rows - offset)
  }

  /** How many rows the first n shards answer with together. */
  ghost function Available(orders: seq<seq<Bytes>>, page: int, pageSize: int, failed: set<nat>, n: nat): nat
    requires n <= |orders| == SHARD_COUNT
  {
    if n == 0 then 0
    else
      var size := EffectiveSize(pageSize);
      Available(orders, page, pageSize, failed, n - 1) +
      if n - 1 in failed then 0
      else RowsListed(|orders[n - 1]|, ShardOffset(PageOffset(page, size), SHARD_COUNT, n - 1), ShardLimit(size, SHARD_COUNT))
  }

  lemma AnswerCount(shards: Shards, collection: Bytes, page: int, pageSize: int, orders: seq<seq<Bytes>>,
                    failed: set<nat>, n: nat)
    requires Listed(shards, collection, orders) && 0 < n <= Needed(page, pageSize)
    ensures Available(orders, page, pageSize, failed, n) == Available(orders, page, pageSize, failed, n - 1)
         + |Answers(shards, collection, page, pageSize, orders, failed)[n - 1]|
  {}

  lemma OneMoreInTurn(answers: seq<seq<Document>>, n: nat)
    requires 0 < n <= |answers|
    ensures |Fetched(answers, UpTo(n))| == |Fetched(answers, UpTo(n - 1))| + |answers[n - 1]|
  {
    assert UpTo(n)[..n - 1] == UpTo(n - 1);
  }

  lemma AnswerOf(shards: Shards, collection: Bytes, page: int, pageSize: int, orders: seq<seq<Bytes>>,
                 failed: set<nat>, s: nat)
    requires Listed(shards, collection, orders) && s < Needed(page, pageSize)
    ensures Answers(shards, collection, page, pageSize, orders, failed)[s]
         == if s in failed then [] else ShardAnswer(shards, collection, page, pageSize, orders, s)
  {}

  // The next answer arrives
  lemma FetchedNext(answers: seq<seq<Document>>, arrival: seq<nat>, i: nat)
    requires i < |arrival| && forall k :: 0 <= k < |arrival| ==> arrival[k] < |answers|
    ensures Fetched(answers, arrival[..i + 1]) == Fetched(answers, arrival[..i]) + answers[arrival[i]]
  {
    assert arrival[..i + 1][..i] == arrival[..i];
  }

  lemma {:induction false} FetchedInTurn(shards: Shards, collection: Bytes, page: int, pageSize: int,
                                         orders: seq<seq<Bytes>>, failed: set<nat>, n: nat)
    requires Listed(shards, collection, orders) && n <= Needed(page, pageSize)
    ensures |Fetched(Answers(shards, collection, page, pageSize, orders, failed), UpTo(n))|
         == Available(orders, page, pageSize, failed, n)
    decreases n
  {
    if n > 0 {
      FetchedInTurn(shards, collection, page, pageSize, orders, failed, n - 1);
      AnswerCount(shards, collection, page, pageSize, orders, failed, n);
      OneMoreInTurn(Answers(shards, collection, page, pageSize, orders, failed), n);
    }
  }

  lemma FetchedCount(shards: Shards, collection: Bytes, page: int, pageSize: int, orders: seq<seq<Bytes>>,
                     arrival: seq<nat>, failed: set<nat>)
    requires Listed(shards, collection, orders) && Arrives(arrival, Needed(page, pageSize))
    ensures |Fetched(Answers(shards, collection, page, pageSize, orders, failed), arrival)|
         == Available(orders, page, pageSize, failed, Needed(page, pageSize))
  {
    var answers, n := Answers(shards, collection, page, pageSize, orders, failed), Needed(page, pageSize);
    FetchedInTurn(shards, collection, page, pageSize, orders, failed, n);
    ArrivalsAgree(answers, arrival, UpTo(n));
    assert |Fetched(answers, arrival)| == |multiset(Fetched(answers, arrival))|;
    assert |Fetched(answers, UpTo(n))| == |multiset(Fetched(answers, UpTo(n)))|;
  }

  /** A page is full if and only if the queried shards that do not fail list that many rows. */
  lemma FullExactly(shards: Shards, collection: Bytes, page: int, pageSize: int, orders: seq<seq<Bytes>>,
                    arrival: seq<nat>, failed: set<nat>, docs: seq<Document>)
    requires Listed(shards, collection, orders) && Arrives(arrival, Needed(page, pageSize))
    requires PageOf(Fetched(Answers(shards, collection, page, pageSize, orders, failed), arrival),
                    EffectiveSize(pageSize), docs)
    ensures |docs| == EffectiveSize(pageSize)
       <==> Available(orders, page, pageSize, failed, Needed(page, pageSize)) >= EffectiveSize(pageSize)
  {
    FetchedCount(shards, collection, page, pageSize, orders, arrival, failed);
    PageIsTopSelection(Fetched(Answers(shards, collection, page, pageSize, orders, failed), arrival),
                       EffectiveSize(pageSize), docs);
  }

  lemma DescendingInsert(sorted: seq<Document>, d: Document, k: nat)
    requires Descending(sorted) && k <= |sorted|
    requires forall j :: 0 <= j < k ==> sorted[j].updatedAt > d.updatedAt
    requires k < |sorted| ==> sorted[k].updatedAt <= d.updatedAt
    ensures Descending(sorted[..k] + [d] + sorted[k..])
  {
    var r := sorted[..k] + [d] + sorted[k..];
    forall i, j | 0 <= i <= j < |r| ensures r[i].updatedAt >= r[j].updatedAt {
      assert r[i] == if i < k then sorted[i] else if i == k then d else sorted[i - 1];
      assert r[j] == if j < k then sorted[j] else if j == k then d else sorted[j - 1];
    }
  }

  lemma SortedInsert(docs: seq<Document>, sorted: seq<Document>, d: Document, k: nat)
    requires IsSorted(docs, sorted) && k <= |sorted|
    requires forall j :: 0 <= j < k ==> sorted[j].updatedAt > d.updatedAt
    requires k < |sorted| ==> sorted[k].updatedAt <= d.updatedAt
    ensures IsSorted(docs + [d], sorted[..k] + [d] + sorted[k..])
  {
    var r := sorted[..k] + [d] + sorted[k..];
    assert multiset(r) == multiset(docs + [d]) by {
      assert sorted == sorted[..k] + sorted[k..];
      assert multiset(r) == multiset(sorted) + multiset{d};
    }
    DescendingInsert(sorted, d, k);
  }

  // ---------- The engine ----------

  class JSONEngine {
    var shards: Shards
    var collections: map<Bytes, Schema>

    ghost predicate Valid()
      reads this
    {
      Placed(shards)
    }

    // The one table the shards stand for
    ghost function Flat(): Table
      reads this
    {
      Union(shards)
    }

    constructor (collections: map<Bytes, Schema>)
      ensures Valid() && Flat() == map[] && this.collections == collections
    {
      this.collections := collections;
      shards := seq(SHARD_COUNT, _ => map[]);
      new;
      forall id ensures id !in Flat() {
        LookupIsRouted(shards, id);
      }
    }

    method CheckSchema(schema: Schema, doc: Doc) returns (ok: bool)
      ensures ok <==> Conforms(schema, doc)
      ensures ok <==> forall f :: f in schema && f in doc ==>
        && (schema[f] == StringType ==> doc[f].Text?)
        && (schema[f] == NumberType ==> doc[f].Number?)
        && (schema[f] == BooleanType ==> doc[f].Boolean?)
    {
      var fields := schema.Keys;
      while fields != {}
        invariant fields <= schema.Keys
        invariant forall f :: f in schema && f !in fields && f in doc ==> HasType(doc[f], schema[f])
        decreases fields
      {
        var field :| field in fields;
        if field in doc && !HasType(doc[field], schema[field]) {
          return false;
        }
        fields := fields - {field};
      }
      return true;
    }

    /** Inserting adds one row to the flat table, under the generated id, unless that id is taken. */
    method Insert(collection: Bytes, doc: Doc, nanos: int, random: nat, now: int, fault: bool)
      returns (r: Result<Bytes>)
      requires Valid()
      modifies this`shards
      ensures Valid()
      ensures r.Ok? <==>
        && collection in collections && Conforms(collections[collection], doc)
        && MakeId(collection, nanos, random) !in old(Flat()) && !fault
      ensures r.Ok? ==> r.value == MakeId(collection, nanos, random)
      ensures r.Ok? ==> Flat() == old(Flat())[r.value := Row(collection, doc, now, now)]
      ensures r.Err? ==> shards == old(shards)
    {
      if collection !in collections {
        return Err(UnknownCollection);
      }
      var conforms := CheckSchema(collections[collection], doc);
      if !conforms {
        return Err(SchemaViolation);
      }
      var id := MakeId(collection, nanos, random);
      var shardId := GetShard(id, collection);
      GeneratedIdOwner(collection, nanos, random);
      LookupIsRouted(shards, id);
      if fault || id in shards[shardId] {
        return Err(StorageFault);
      }
      PutIsRouted(shards, id, Row(collection, doc, now, now));
      shards := shards[shardId := shards[shardId][id := Row(collection, doc, now, now)]];
      return Ok(id);
    }

    /** Updating merges into the row with that id exactly when the given collection is
        routed to the shard the row is in. */
    method Update(collection: Bytes, id: Bytes, update: Doc, now: int, fault: bool) returns (r: Result<()>)
      requires Valid()
      modifies this`shards
      ensures Valid()
      ensures r.Ok? <==> id in old(Flat()) && GetShard(id, collection) == Home(id) && !fault
      ensures r.Ok? ==> Flat() == old(Flat())[id := Merged(old(Flat())[id], update, now)]
      ensures r.Ok? ==>
        var before, after := old(Flat())[id], Flat()[id];
        && Merges(before.data, update, after.data)
        && after.collection == before.collection && after.createdAt == before.createdAt && after.updatedAt == now
      ensures r.Err? ==> shards == old(shards)
    {
      var shardId := GetShard(id, collection);
      LookupIsRouted(shards, id);
      if shardId != Home(id) {
        ElsewhereAbsent(shards, shardId, id);
      }
      if id !in shards[shardId] {
        return Err(NotFound);
      }
      if fault {
        return Err(StorageFault);
      }
      var row := shards[shardId][id];
      PutIsRouted(shards, id, Merged(row, update, now));
      shards := shards[shardId := shards[shardId][id := Merged(row, update, now)]];
      return Ok(());
    }

    /** Deleting removes the row with that id under the same condition, and reports success
        whether or not there was one. */
    method Delete(collection: Bytes, id: Bytes, fault: bool) returns (r: Result<()>)
      requires Valid()
      modifies this`shards
      ensures Valid()
      ensures r.Ok? <==> !fault
      ensures Flat() == if r.Ok? && GetShard(id, collection) == Home(id) then old(Flat()) - {id} else old(Flat())
    {
      var shardId := GetShard(id, collection);
      if fault {
        return Err(StorageFault);
      }
      if shardId == Home(id) {
        DeleteIsRouted(shards, id);
      } else {
        ElsewhereAbsent(shards, shardId, id);
        assert shards[shardId] - {id} == shards[shardId];
        assert shards[shardId := shards[shardId]] == shards;
      }
      shards := shards[shardId := shards[shardId] - {id}];
      return Ok(());
    }

    // ---------- Bulk insertion ----------

    method InsertRows(table: Table, batch: seq<Put>) returns (t: Table)
      ensures t == PutAll(table, batch)
    {
      t := table;
      var i := 0;
      while i < |batch|
        invariant 0 <= i <= |batch|
        invariant t == PutAll(table, batch[..i])
      {
        assert batch[..i + 1][..i] == batch[..i];
        t := t[batch[i].id := batch[i].row];
        i := i + 1;
      }
      assert batch[..|batch|] == batch;
    }

    // shard.go, lines 111 to 124: the rows of a batch grouped by shard
    method GroupByShard(collection: Bytes, docs: seq<Doc>, baseIndex: nat, now: int)
      returns (ids: seq<Bytes>, shardBatches: map<nat, seq<Put>>)
      ensures ids == Ids(BatchPuts(collection, docs, now, baseIndex))
      ensures IsGrouping(shardBatches, BatchPuts(collection, docs, now, baseIndex))
      ensures baseIndex % 10 == 0 ==> forall s :: s in shardBatches ==> |shardBatches[s]| <= (|docs| + 9) / 10
    {
      ghost var puts := BatchPuts(collection, docs, now, baseIndex);
      shardBatches := map[];
      ids := seq(|docs|, _ => []);
      var idx := 0;
      while idx < |docs|
        invariant 0 <= idx <= |docs| == |ids|
        invariant forall i :: 0 <= i < idx ==> ids[i] == puts[i].id
        invariant IsGrouping(shardBatches, puts[..idx])
      {
        var id := MakeId(collection, now, baseIndex + idx);
        ids := ids[idx := id];
        var shardId := GetShard(id, collection);
        var batch := if shardId in shardBatches then shardBatches[shardId] else [];
        NextGrouped(shardBatches, puts, idx);
        shardBatches := shardBatches[shardId := batch + [PutOf(collection, docs[idx], now, baseIndex + idx)]];
        idx := idx + 1;
      }
      assert puts[..|docs|] == puts;
      GroupsAreBalanced(shardBatches, collection, docs, now, baseIndex);
    }

    /** One transaction per shard: in whatever order they run, exactly the groups of the
        shards that did not fail are stored. */
    method BulkInsertBatch(collection: Bytes, docs: seq<Doc>, baseIndex: nat, now: int, failed: set<nat>)
      returns (r: Result<seq<Bytes>>)
      requires Valid()
      modifies this`shards
      ensures Valid()
      ensures collection !in collections ==> r == Err(UnknownCollection) && shards == old(shards)
      ensures collection in collections ==>
        Flat() == PutWithout(old(Flat()), BatchPuts(collection, docs, now, baseIndex), failed)
      ensures collection in collections ==>
        (r.Ok? <==> forall p :: p in BatchPuts(collection, docs, now, baseIndex) ==> Target(p) !in failed)
      ensures r.Ok? ==> r.value == Ids(BatchPuts(collection, docs, now, baseIndex))
      ensures collection in collections ==> forall k :: 0 <= k < |docs| ==>
        var id := MakeId(collection, now, baseIndex + k);
        && (r.Ok? ==> r.value[k] == id)
        && (GetShard(id, collection) !in failed ==> StoredAs(Flat(), id, Row(collection, docs[k], now, now)))
    {
      if collection !in collections {
        return Err(UnknownCollection);
      }
      var ids, shardBatches := GroupByShard(collection, docs, baseIndex, now);
      ghost var puts := BatchPuts(collection, docs, now, baseIndex);
      var errors := WriteGroups(shardBatches, puts, failed);
      BatchStored(old(shards), shards, shardBatches, collection, docs, now, baseIndex, failed);
      FailsExactly(shardBatches, puts, failed);
      forall k | 0 <= k < |docs|
        ensures var id := MakeId(collection, now, baseIndex + k);
          GetShard(id, collection) !in failed ==> StoredAs(Flat(), id, Row(collection, docs[k], now, now))
      {
        BatchMeans(old(Flat()), collection, docs, now, baseIndex, failed, k);
      }
      return if errors then Err(StorageFault) else Ok(ids);
    }

    // shard.go, lines 129 to 172: one transaction per shard, in any order
    method WriteGroups(shardBatches: map<nat, seq<Put>>, ghost puts: seq<Put>, failed: set<nat>) returns (errors: bool)
      requires IsGrouping(shardBatches, puts)
      modifies this`shards
      ensures StoredFor(old(shards), shards, puts, shardBatches.Keys - failed)
      ensures errors <==> shardBatches.Keys * failed != {}
    {
      var remaining := shardBatches.Keys;
      errors := false;
      while remaining != {}
        invariant remaining <= shardBatches.Keys
        invariant StoredFor(old(shards), shards, puts, shardBatches.Keys - remaining - failed)
        invariant errors <==> (shardBatches.Keys - remaining) * failed != {}
        decreases remaining
      {
        var sid :| sid in remaining;
        assert sid in shardBatches;
        if sid in failed {
          errors := true;
          assert sid in (shardBatches.Keys - (remaining - {sid})) * failed;
          assert shardBatches.Keys - (remaining - {sid}) - failed == shardBatches.Keys - remaining - failed;
        } else {
          var table := InsertRows(shards[sid], shardBatches[sid]);
          shards := shards[sid := table];
          assert shardBatches.Keys - (remaining - {sid}) - failed == shardBatches.Keys - remaining - failed + {sid};
          assert (shardBatches.Keys - (remaining - {sid})) * failed == (shardBatches.Keys - remaining) * failed;
        }
        remaining := remaining - {sid};
      }
      assert shardBatches.Keys - remaining == shardBatches.Keys;
    }

    // shard.go, line 94: one more batch, and what it means for the call
    method NextBatch(collection: Bytes, docs: seq<Doc>, i: nat, end: nat, clocks: nat -> int, failed: nat -> set<nat>,
                     ghost b: nat, ghost first: Table, ghost ids: seq<Bytes>)
      returns (r: Result<seq<Bytes>>)
      requires Valid() && i == b * BATCH_SIZE < |docs| && end == Least(i + BATCH_SIZE, |docs|)
      requires collection in collections ==> BulkProgress(first, Flat(), AllPuts(collection, docs, clocks), failed, i, ids)
      modifies this`shards
      ensures Valid()
      ensures collection !in collections ==> r == Err(UnknownCollection) && shards == old(shards)
      ensures collection in collections && r.Ok? ==>
        BulkProgress(first, Flat(), AllPuts(collection, docs, clocks), failed, end, ids + r.value)
      ensures collection in collections && r.Err? ==>
        BulkOutcome(first, Flat(), AllPuts(collection, docs, clocks), failed, ids, false)
    {
      ghost var all, before := AllPuts(collection, docs, clocks), Flat();
      BatchNumber(b);
      BatchOfAll(collection, docs, clocks, b, end);
      r := BulkInsertBatch(collection, docs[i..end], i, clocks(i / BATCH_SIZE), failed(i / BATCH_SIZE));
      if collection in collections {
        if r.Ok? {
          BatchAdvances(first, before, Flat(), all, failed, b, end, ids);
        } else {
          BatchFails(first, before, Flat(), all, failed, b, end, ids);
        }
      }
    }

    /** The returned ids are those of a prefix of whole batches, all of whose documents are
        stored; of the batch that failed, the documents of the other shards are stored too. */
    method BulkInsert(collection: Bytes, docs: seq<Doc>, clocks: nat -> int, failed: nat -> set<nat>)
      returns (ids: seq<Bytes>, err: Option<Error>)
      requires Valid()
      modifies this`shards
      ensures Valid()
      ensures docs == [] ==> err == None && ids == [] && shards == old(shards)
      ensures docs != [] && collection !in collections ==>
        err == Some(UnknownCollection) && ids == [] && shards == old(shards)
      ensures docs != [] && collection in collections ==>
        BulkOutcome(old(Flat()), Flat(), AllPuts(collection, docs, clocks), failed, ids, err == None)
      ensures docs != [] && collection in collections ==>
        && (forall k :: 0 <= k < |ids| ==> ids[k] == MakeId(collection, clocks(k / 500), k))
        && DocumentsStored(Flat(), collection, docs, clocks, |ids|)
        && (err == None <==> |ids| == |docs|)
        && (err != None ==> PartlyStored(Flat(), collection, docs, clocks, failed(|ids| / 500), |ids|))
    {
      ids := [];
      if |docs| == 0 {
        return [], None;
      }
      ghost var all := AllPuts(collection, docs, clocks);
      var i := 0;
      ghost var b: nat := 0;
      while i < |docs|
        invariant i == b * BATCH_SIZE
        invariant Valid() && (i == 0 ==> shards == old(shards)) && (collection !in collections ==> i == 0)
        invariant i == 0 ==> ids == []
        invariant collection in collections ==> BulkProgress(old(Flat()), Flat(), all, failed, Least(i, |docs|), ids)
      {
        var end := i + BATCH_SIZE;
        if end > |docs| {
          end := |docs|;
        }
        var r := NextBatch(collection, docs, i, end, clocks, failed, b, old(Flat()), ids);
        if r.Err? {
          if collection in collections {
            OutcomeMeans(old(Flat()), Flat(), collection, docs, clocks, failed, ids, false);
          }
          return ids, Some(r.error);
        }
        ids := ids + r.value;
        i := i + BATCH_SIZE;
        b := b + 1;
      }
      BulkCompletes(old(Flat()), Flat(), all, failed, ids);
      OutcomeMeans(old(Flat()), Flat(), collection, docs, clocks, failed, ids, true);
      return ids, None;
    }

    // ---------- Paged queries ----------

    method FirstNotNewer(sorted: seq<Document>, d: Document) returns (k: nat)
      ensures k <= |sorted| && (k < |sorted| ==> sorted[k].updatedAt <= d.updatedAt)
      ensures forall j :: 0 <= j < k ==> sorted[j].updatedAt > d.updatedAt
    {
      k := 0;
      while k < |sorted| && sorted[k].updatedAt > d.updatedAt
        invariant k <= |sorted|
        invariant forall j :: 0 <= j < k ==> sorted[j].updatedAt > d.updatedAt
      {
        k := k + 1;
      }
    }

    // The library's sort by descending timestamp, here by insertion; callers may rely on
    // no particular order of equal timestamps
    method SortByUpdatedAt(docs: seq<Document>) returns (sorted: seq<Document>)
      ensures IsSorted(docs, sorted)
    {
      sorted := [];
      var i := 0;
      while i < |docs|
        invariant 0 <= i <= |docs|
        invariant IsSorted(docs[..i], sorted)
      {
        var k := FirstNotNewer(sorted, docs[i]);
        SortedInsert(docs[..i], sorted, docs[i], k);
        assert docs[..i + 1] == docs[..i] + [docs[i]];
        sorted := sorted[..k] + [docs[i]] + sorted[k..];
        i := i + 1;
      }
      assert docs[..|docs|] == docs;
    }

    // engine.go, lines 367 to 400: the query one goroutine sends to its shard
    method QueryShard(collection: Bytes, page: int, pageSize: int, orders: seq<seq<Bytes>>, shardID: nat)
      returns (docs: seq<Document>)
      requires Listed(shards, collection, orders) && shardID < SHARD_COUNT
      ensures docs == ShardAnswer(shards, collection, page, pageSize, orders, shardID)
      ensures AllShowRows(shards, collection, docs) && forall d :: d in docs ==> d.shardId == shardID
    {
      var size := EffectiveSize(pageSize);
      var offset := PageOffset(page, size);
      var shardOffset := offset / SHARD_COUNT;
      if offset % SHARD_COUNT > shardID {
        shardOffset := shardOffset + 1;
      }
      var shardLimit := size / SHARD_COUNT + 1;
      docs := Documents(shards[shardID], Window(orders[shardID], shardOffset, shardLimit), shardID);
      WindowShowsRows(shards, collection, orders, shardOffset, shardLimit, shardID);
    }

    // engine.go, lines 409 to 415: the answers appended as they arrive, without those of failed shards
    method CollectAnswers(collection: Bytes, page: int, pageSize: int,
                          orders: seq<seq<Bytes>>, arrival: seq<nat>, failed: set<nat>)
      returns (allDocs: seq<Document>)
      requires Listed(shards, collection, orders) && Arrives(arrival, Needed(page, pageSize))
      ensures allDocs == Fetched(Answers(shards, collection, page, pageSize, orders, failed), arrival)
    {
      ghost var answers := Answers(shards, collection, page, pageSize, orders, failed);
      allDocs := [];
      var i := 0;
      assert Fetched(answers, arrival[..0]) == [];
      while i < |arrival|
        invariant 0 <= i <= |arrival|
        invariant allDocs == Fetched(answers, arrival[..i])
      {
        FetchedNext(answers, arrival, i);
        AnswerOf(shards, collection, page, pageSize, orders, failed, arrival[i]);
        if arrival[i] !in failed {
          var docs := QueryShard(collection, page, pageSize, orders, arrival[i]);
          allDocs := allDocs + docs;
        }
        i := i + 1;
      }
      assert arrival[..|arrival|] == arrival;
    }

    /** A page is the newest-first selection from what the queried shards list. */
    method FindPage(collection: Bytes, page: int, pageSize: int,
                    orders: seq<seq<Bytes>>, arrival: seq<nat>, failed: set<nat>)
      returns (r: Option<PageResult>)
      requires Listed(shards, collection, orders) && Arrives(arrival, Needed(page, pageSize))
      ensures r.None? <==> collection !in collections
      ensures r.Some? ==>
        && r.value.pageSize == EffectiveSize(pageSize)
        && r.value.page == PageOffset(page, r.value.pageSize) / r.value.pageSize + 1
        && PageOf(Fetched(Answers(shards, collection, page, pageSize, orders, failed), arrival),
                  r.value.pageSize, r.value.documents)
        && (r.value.hasMore <==>
            Available(orders, page, pageSize, failed, Needed(page, pageSize)) >= EffectiveSize(pageSize))
      ensures r.Some? ==> AllShowRows(shards, collection, r.value.documents)
      ensures r.Some? ==> r.value.pageSize == if 1 <= pageSize <= 1000 then pageSize else 100
      ensures r.Some? ==> r.value.page == if page < 1 then 1 else page
    {
      var size := EffectiveSize(pageSize);
      var offset := PageOffset(page, size);
      if collection !in collections {
        return None;
      }
      var allDocs := CollectAnswers(collection, page, pageSize, orders, arrival, failed);
      var sorted := SortByUpdatedAt(allDocs);
      var documents := if |sorted| > size then sorted[..size] else sorted;
      assert documents == Window(sorted, 0, size);
      FullExactly(shards, collection, page, pageSize, orders, arrival, failed, documents);
      PageShowsRows(shards, collection, page, pageSize, orders, arrival, failed, documents);
      PageNumber(page, size);
      QuotientNatural(offset, size);
      var number := offset / size + 1;
      return Some(PageResult(documents, number, size, |documents| == size));
    }

    /** The first document of shard 0, which is the only shard read: none is found exactly
        when the query to shard 0 fails or it has no row of the collection. */
    method FindOne(collection: Bytes, orders: seq<seq<Bytes>>, arrival: seq<nat>, failed: set<nat>)
      returns (r: Option<Option<Document>>)
      requires Listed(shards, collection, orders) && Arrives(arrival, Needed(1, 1))
      ensures r.None? <==> collection !in collections
      ensures r.Some? ==> (r.value.None? <==>
        0 in failed || forall id :: id in shards[0] ==> shards[0][id].collection != collection)
      ensures r.Some? && r.value.Some? ==>
        && r.value.value.id in shards[0] && shards[0][r.value.value.id].collection == collection
        && r.value.value.shardId == 0 && ShowsRow(shards, collection, r.value.value)
        && forall id :: id in shards[0] && shards[0][id].collection == collection ==>
             shards[0][id].updatedAt <= r.value.value.updatedAt
    {
      var page := FindPage(collection, 1, 1, orders, arrival, failed);
      if page.None? {
        return None;
      }
      var docs := page.value.documents;
      OneShardPage(shards, collection, 1, orders, arrival, failed, docs);
      FirstFound(shards[0], collection, orders, failed, docs);
      return Some(if |docs| == 0 then None else Some(docs[0]));
    }

    /** All documents a search without paging returns: at most seven, all from shard 0, and
        none if the query to shard 0 fails. */
    method Find(collection: Bytes, orders: seq<seq<Bytes>>, arrival: seq<nat>, failed: set<nat>)
      returns (r: Option<seq<Document>>)
      requires Listed(shards, collection, orders) && Arrives(arrival, Needed(1, 10000))
      ensures r.None? <==> collection !in collections
      ensures r.Some? ==> Times(r.value) == Times(Documents(shards[0], FirstListed(orders, failed, 7), 0))
      ensures r.Some? ==> multiset(r.value) == multiset(Documents(shards[0], FirstListed(orders, failed, 7), 0))
      ensures r.Some? ==> AllShowRows(shards, collection, r.value) && forall d :: d in r.value ==> d.shardId == 0
    {
      var page := FindPage(collection, 1, 10000, orders, arrival, failed);
      if page.None? {
        return None;
      }
      OneShardPage(shards, collection, 10000, orders, arrival, failed, page.value.documents);
      ListedFirst(shards[0], FirstListed(orders, failed, 7), page.value.documents);
      return Some(page.value.documents);
    }
  }
}

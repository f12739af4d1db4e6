/**
 What a bulk insertion stores, and how it is spread over the shards.
 */
module BulkPlan {
  import opened Arithmetic
  import opened Fnv
  import opened DocumentIds
  import opened ShardMaps
  import opened Wrappers

  const BATCH_SIZE: nat := 500

  // The row stored for document number k of a call, whose batch read the given clock
  function PutOf(collection: Bytes, doc: Doc, clock: int, k: nat): Put {
    Put(MakeId(collection, clock, k), Row(collection, doc, clock, clock))
  }

  // The rows of one batch, numbered from baseIndex
  function BatchPuts(collection: Bytes, docs: seq<Doc>, clock: int, baseIndex: nat): (puts: seq<Put>)
    ensures |puts| == |docs|
    ensures forall i :: 0 <= i < |docs| ==> puts[i] == PutOf(collection, docs[i], clock, baseIndex + i)
  {
    seq(|docs|, i requires 0 <= i < |docs| => PutOf(collection, docs[i], clock, baseIndex + i))
  }

  function Ids(puts: seq<Put>): (ids: seq<Bytes>)
    ensures |ids| == |puts|
    ensures forall i :: 0 <= i < |puts| ==> ids[i] == puts[i].id
  {
    seq(|puts|, i requires 0 <= i < |puts| => puts[i].id)
  }

  function Target(p: Put): nat {
    GetShard(p.id, p.row.collection)
  }

  // The rows of a batch that go to one shard, in batch order
  function Group(puts: seq<Put>, s: nat): seq<Put> {
    if puts == [] then []
    else
      var rest := Group(puts[..|puts| - 1], s);
      if Target(puts[|puts| - 1]) == s then rest + [puts[|puts| - 1]] else rest
  }

  ghost function GroupsUpTo(puts: seq<Put>, n: nat): multiset<Put> {
    if n == 0 then multiset{} else GroupsUpTo(puts, n - 1) + multiset(Group(puts, n - 1))
  }

  lemma {:induction false} GroupMembers(puts: seq<Put>, s: nat)
    ensures forall p :: p in Group(puts, s) <==> p in puts && Target(p) == s
    decreases puts
  {
    if puts != [] {
      GroupMembers(puts[..|puts| - 1], s);
      assert puts == puts[..|puts| - 1] + [puts[|puts| - 1]];
    }
  }

  lemma {:induction false} GroupsExtend(puts: seq<Put>, p: Put, n: nat)
    ensures GroupsUpTo(puts + [p], n) == GroupsUpTo(puts, n) + (if Target(p) < n then multiset{p} else multiset{})
    decreases n
  {
    if n > 0 {
      GroupsExtend(puts, p, n - 1);
      assert (puts + [p])[..|puts|] == puts;
    }
  }

  /** The groups of the sixteen shards partition the batch. */
  lemma {:induction false} GroupsPartition(puts: seq<Put>)
    ensures GroupsUpTo(puts, SHARD_COUNT) == multiset(puts)
    decreases puts
  {
    if puts == [] {
      EmptyGroups(SHARD_COUNT);
    } else {
      var init, last := puts[..|puts| - 1], puts[|puts| - 1];
      assert puts == init + [last];
      GroupsPartition(init);
      GroupsExtend(init, last, SHARD_COUNT);
    }
  }

  lemma {:induction false} EmptyGroups(n: nat)
    ensures GroupsUpTo([], n) == multiset{}
    decreases n
  {
    if n > 0 {
      EmptyGroups(n - 1);
    }
  }

  // ---------- Storing ----------

  // INSERT OR REPLACE of one group into one table
  function PutAll(table: Table, puts: seq<Put>): Table {
    if puts == [] then table
    else PutAll(table, puts[..|puts| - 1])[puts[|puts| - 1].id := puts[|puts| - 1].row]
  }

  // Storing a batch into the one table, without the rows of failed shards
  function PutWithout(table: Table, puts: seq<Put>, failed: set<nat>): Table {
    if puts == [] then table
    else
      var before := PutWithout(table, puts[..|puts| - 1], failed);
      var last := puts[|puts| - 1];
      if Target(last) in failed then before else before[last.id := last.row]
  }

  ghost predicate Generated(puts: seq<Put>) {
    forall p :: p in puts ==> Owner(p.id) == Some(p.row.collection)
  }

  // Storing a batch row by row, each in the shard it is routed to
  ghost function PutRouted(shards: Shards, puts: seq<Put>, failed: set<nat>): Shards {
    if puts == [] then shards
    else
      var before := PutRouted(shards, puts[..|puts| - 1], failed);
      var last := puts[|puts| - 1];
      var s := Target(last);
      if s in failed then before else before[s := before[s][last.id := last.row]]
  }

  /** Row by row or group by group, each shard ends up with the same table. */
  lemma {:induction false} GroupwiseIsRowwise(shards: Shards, puts: seq<Put>, failed: set<nat>, s: nat)
    requires s < SHARD_COUNT
    ensures PutRouted(shards, puts, failed)[s] == if s in failed then shards[s] else PutAll(shards[s], Group(puts, s))
    decreases puts
  {
    if puts != [] {
      var init, last := puts[..|puts| - 1], puts[|puts| - 1];
      GroupwiseIsRowwise(shards, init, failed, s);
      assert (Group(init, s) + [last])[..|Group(init, s)|] == Group(init, s);
    }
  }

  /** Storing routed rows in the shards stores them in the union. */
  lemma {:induction false} RowwiseIsUnion(shards: Shards, puts: seq<Put>, failed: set<nat>)
    requires Placed(shards) && Generated(puts)
    ensures Placed(PutRouted(shards, puts, failed))
    ensures Union(PutRouted(shards, puts, failed)) == PutWithout(Union(shards), puts, failed)
    decreases puts
  {
    if puts != [] {
      var init, last := puts[..|puts| - 1], puts[|puts| - 1];
      assert last in puts && Generated(init);
      RowwiseIsUnion(shards, init, failed);
      PutIsRouted(PutRouted(shards, init, failed), last.id, last.row);
    }
  }

  lemma {:induction false} NothingFails(table: Table, puts: seq<Put>, failed: set<nat>)
    requires forall p :: p in puts ==> Target(p) !in failed
    ensures PutWithout(table, puts, failed) == PutWithout(table, puts, {})
    decreases puts
  {
    if puts != [] {
      assert puts[|puts| - 1] in puts;
      NothingFails(table, puts[..|puts| - 1], failed);
    }
  }

  lemma {:induction false} PutsConcat(table: Table, a: seq<Put>, b: seq<Put>, failed: set<nat>)
    ensures PutWithout(table, a + b, failed) == PutWithout(PutWithout(table, a, failed), b, failed)
    decreases b
  {
    if b == [] {
      assert a + b == a;
    } else {
      assert (a + b)[..|a + b| - 1] == a + b[..|b| - 1];
      PutsConcat(table, a, b[..|b| - 1], failed);
    }
  }

  ghost predicate DistinctIds(puts: seq<Put>) {
    forall i, j :: 0 <= i < j < |puts| ==> puts[i].id != puts[j].id
  }

  /** An id none of whose rows is stored keeps what it had. */
  lemma {:induction false} NotStored(table: Table, puts: seq<Put>, failed: set<nat>, id: Bytes)
    requires forall i :: 0 <= i < |puts| && puts[i].id == id ==> Target(puts[i]) in failed
    ensures id in PutWithout(table, puts, failed) <==> id in table
    ensures id in table ==> PutWithout(table, puts, failed)[id] == table[id]
    decreases puts
  {
    if puts != [] {
      NotStored(table, puts[..|puts| - 1], failed, id);
    }
  }

  /** With distinct ids every row whose shard did not fail is stored. */
  lemma {:induction false} IsStored(table: Table, puts: seq<Put>, failed: set<nat>, k: nat)
    requires DistinctIds(puts) && k < |puts| && Target(puts[k]) !in failed
    ensures puts[k].id in PutWithout(table, puts, failed)
    ensures PutWithout(table, puts, failed)[puts[k].id] == puts[k].row
    decreases puts
  {
    var n := |puts| - 1;
    if k < n {
      IsStored(table, puts[..n], failed, k);
      assert puts[k].id != puts[n].id;
    }
  }

  // ---------- The whole call ----------

  // The rows of all documents, clocks[b] being what batch number b read
  function AllPuts(collection: Bytes, docs: seq<Doc>, clocks: nat -> int): (puts: seq<Put>)
    ensures |puts| == |docs|
    ensures forall k :: 0 <= k < |docs| ==> puts[k] == PutOf(collection, docs[k], clocks(k / BATCH_SIZE), k)
  {
    seq(|docs|, k requires 0 <= k < |docs| => PutOf(collection, docs[k], clocks(k / BATCH_SIZE), k))
  }

  /** All ids of one call differ, whatever the clock does between batches. */
  lemma AllIdsDistinct(collection: Bytes, docs: seq<Doc>, clocks: nat -> int)
    ensures DistinctIds(AllPuts(collection, docs, clocks)) && Generated(AllPuts(collection, docs, clocks))
  {
    var puts := AllPuts(collection, docs, clocks);
    forall i, j | 0 <= i < j < |puts| ensures puts[i].id != puts[j].id {
      if puts[i].id == puts[j].id {
        IdsDiffer(collection, clocks(i / BATCH_SIZE), i, collection, clocks(j / BATCH_SIZE), j);
      }
    }
    forall p | p in puts ensures Owner(p.id) == Some(p.row.collection) {
      var k :| 0 <= k < |puts| && puts[k] == p;
      GeneratedIdOwner(collection, clocks(k / BATCH_SIZE), k);
    }
  }

  lemma BatchOfAll(collection: Bytes, docs: seq<Doc>, clocks: nat -> int, b: nat, end: nat)
    requires b * BATCH_SIZE <= end <= |docs| && end <= (b + 1) * BATCH_SIZE
    ensures BatchPuts(collection, docs[b * BATCH_SIZE..end], clocks(b), b * BATCH_SIZE)
         == AllPuts(collection, docs, clocks)[b * BATCH_SIZE..end]
  {
    var i := b * BATCH_SIZE;
    forall k | i <= k < end ensures k / BATCH_SIZE == b {}
  }

  // ---------- Load balance ----------

  lemma {:induction false} GroupConcat(a: seq<Put>, b: seq<Put>, s: nat)
    ensures Group(a + b, s) == Group(a, s) + Group(b, s)
    decreases b
  {
    if b == [] {
      assert a + b == a;
    } else {
      assert (a + b)[..|a + b| - 1] == a + b[..|b| - 1];
      GroupConcat(a, b[..|b| - 1], s);
    }
  }

  lemma {:induction false} AtMostOne(puts: seq<Put>, s: nat)
    requires forall i, j :: 0 <= i < j < |puts| ==> Target(puts[i]) != Target(puts[j])
    ensures |Group(puts, s)| <= 1
    decreases puts
  {
    if puts != [] {
      var init, last := puts[..|puts| - 1], puts[|puts| - 1];
      AtMostOne(init, s);
      forall p | p in init ensures Target(p) != Target(last) {
        var i :| 0 <= i < |init| && init[i] == p;
        assert puts[i] == p;
      }
      GroupMembers(init, s);
      assert Group(init, s) != [] ==> Group(init, s)[0] in init;
    }
  }

  // Ten documents whose numbers share all digits but the last
  lemma AlignedTenSpread(collection: Bytes, docs: seq<Doc>, clock: int, tens: nat, i: nat, j: nat)
    requires i < j < |docs| <= 10
    ensures var puts := BatchPuts(collection, docs, clock, 10 * tens);
      Target(puts[i]) != Target(puts[j])
  {
    LastDigitSpreads(collection, clock, tens, i, j);
  }

  lemma AlignedTenBalanced(collection: Bytes, docs: seq<Doc>, clock: int, baseIndex: nat, s: nat)
    requires baseIndex % 10 == 0 && |docs| <= 10
    ensures |Group(BatchPuts(collection, docs, clock, baseIndex), s)| <= 1
  {
    var puts := BatchPuts(collection, docs, clock, baseIndex);
    forall i, j | 0 <= i < j < |puts| ensures Target(puts[i]) != Target(puts[j]) {
      AlignedTenSpread(collection, docs, clock, baseIndex / 10, i, j);
    }
    AtMostOne(puts, s);
  }

  lemma BatchCut(collection: Bytes, docs: seq<Doc>, clock: int, baseIndex: nat, n: nat)
    requires n <= |docs|
    ensures BatchPuts(collection, docs, clock, baseIndex)
         == BatchPuts(collection, docs[..n], clock, baseIndex) + BatchPuts(collection, docs[n..], clock, baseIndex + n)
  {}

  /** No shard gets more than a tenth of a batch, rounded up. */
  lemma {:induction false} LoadIsBalanced(collection: Bytes, docs: seq<Doc>, clock: int, baseIndex: nat, s: nat)
    requires baseIndex % 10 == 0
    ensures |Group(BatchPuts(collection, docs, clock, baseIndex), s)| <= (|docs| + 9) / 10
    decreases docs
  {
    if |docs| <= 10 {
      AlignedTenBalanced(collection, docs, clock, baseIndex, s);
      assert docs == [] ==> BatchPuts(collection, docs, clock, baseIndex) == [];
    } else {
      BatchCut(collection, docs, clock, baseIndex, 10);
      GroupConcat(BatchPuts(collection, docs[..10], clock, baseIndex),
                  BatchPuts(collection, docs[10..], clock, baseIndex + 10), s);
      AlignedTenBalanced(collection, docs[..10], clock, baseIndex, s);
      LoadIsBalanced(collection, docs[10..], clock, baseIndex + 10, s);
    }
  }

  lemma BatchStartAligned(b: nat)
    ensures b * BATCH_SIZE % 10 == 0
  {
    DivisionUnique(b * BATCH_SIZE, 10, 50 * b, 0);
  }

  /** In every batch of a bulk insertion no shard gets more than a tenth of it, rounded up. */
  lemma EveryBatchIsBalanced(collection: Bytes, docs: seq<Doc>, clocks: nat -> int, b: nat, end: nat, s: nat)
    requires b * BATCH_SIZE <= end <= |docs| && end <= (b + 1) * BATCH_SIZE
    ensures |Group(AllPuts(collection, docs, clocks)[b * BATCH_SIZE..end], s)| <= (end - b * BATCH_SIZE + 9) / 10
  {
    BatchOfAll(collection, docs, clocks, b, end);
    BatchStartAligned(b);
    LoadIsBalanced(collection, docs[b * BATCH_SIZE..end], clocks(b), b * BATCH_SIZE, s);
  }
}

/**
 Whole runs of insertions, bulk insertions, updates and deletions on the sharded store, against one table.
 */
module StoreRuns {
  import opened Fnv
  import opened DocumentIds
  import opened ShardMaps
  import opened ShardSpread
  import opened BulkPlan
  import opened JsonEngine
  import opened Wrappers

  datatype Call =
    | InsertCall(collection: Bytes, doc: Doc, nanos: int, random: nat, now: int, fault: bool)
    | UpdateCall(collection: Bytes, id: Bytes, update: Doc, now: int, fault: bool)
    | DeleteCall(collection: Bytes, id: Bytes, fault: bool)
    | BulkCall(collection: Bytes, docs: seq<Doc>, clocks: nat -> int, failed: nat -> set<nat>)

  ghost predicate Inserts(collections: map<Bytes, Schema>, call: Call)
    requires call.InsertCall?
  {
    call.collection in collections && Conforms(collections[call.collection], call.doc) && !call.fault
  }

  // The call on one table, which finds every id whatever collection is named
  ghost function PlainStep(collections: map<Bytes, Schema>, t: Table, call: Call): Table {
    match call
    case InsertCall(c, doc, nanos, random, now, _) =>
      var id := MakeId(c, nanos, random);
      if Inserts(collections, call) && id !in t then t[id := Row(c, doc, now, now)] else t
    case UpdateCall(_, id, update, now, fault) =>
      if id in t && !fault then t[id := Merged(t[id], update, now)] else t
    case DeleteCall(_, id, fault) =>
      if fault then t else t - {id}
    case BulkCall(c, docs, clocks, failed) =>
      if docs != [] && c in collections then AfterBulk(t, AllPuts(c, docs, clocks), failed) else t
  }

  // Whether the call looks for its id in the shard where that id lives
  ghost predicate WellRouted(call: Call) {
    call.InsertCall? || call.BulkCall? || GetShard(call.id, call.collection) == Home(call.id)
  }

  // The call as the sharded store performs it: a misrouted call finds nothing
  ghost function FlatStep(collections: map<Bytes, Schema>, t: Table, call: Call): Table {
    if WellRouted(call) then PlainStep(collections, t, call) else t
  }

  ghost function PlainRun(collections: map<Bytes, Schema>, calls: seq<Call>): Table {
    if calls == [] then map[] else PlainStep(collections, PlainRun(collections, calls[..|calls| - 1]), calls[|calls| - 1])
  }

  ghost function FlatRun(collections: map<Bytes, Schema>, calls: seq<Call>): Table {
    if calls == [] then map[] else FlatStep(collections, FlatRun(collections, calls[..|calls| - 1]), calls[|calls| - 1])
  }

  method Perform(engine: JSONEngine, call: Call)
    requires engine.Valid()
    modifies engine`shards
    ensures engine.Valid() && engine.Flat() == FlatStep(engine.collections, old(engine.Flat()), call)
  {
    match call
    case InsertCall(c, doc, nanos, random, now, fault) =>
      var r := engine.Insert(c, doc, nanos, random, now, fault);
    case UpdateCall(c, id, update, now, fault) =>
      var r := engine.Update(c, id, update, now, fault);
    case DeleteCall(c, id, fault) =>
      var r := engine.Delete(c, id, fault);
    case BulkCall(c, docs, clocks, failed) =>
      ghost var before := engine.Flat();
      var ids, err := engine.BulkInsert(c, docs, clocks, failed);
      if docs != [] && c in engine.collections {
        BulkIsDetermined(before, engine.Flat(), AllPuts(c, docs, clocks), failed, ids, err == None);
      }
  }

  /** After any run of calls every row is in the shard its id names, and the sixteen tables
      together are what the run makes of one table. */
  method Replay(collections: map<Bytes, Schema>, calls: seq<Call>) returns (engine: JSONEngine)
    ensures fresh(engine) && engine.Valid() && engine.collections == collections
    ensures engine.Flat() == FlatRun(collections, calls)
  {
    engine := new JSONEngine(collections);
    var i := 0;
    while i < |calls|
      invariant 0 <= i <= |calls|
      invariant fresh(engine) && engine.Valid() && engine.collections == collections
      invariant engine.Flat() == FlatRun(collections, calls[..i])
    {
      assert calls[..i + 1][..i] == calls[..i];
      Perform(engine, calls[i]);
      i := i + 1;
    }
    assert calls[..|calls|] == calls;
  }

  // The caller names, with every id, the collection the id was generated for
  ghost predicate NamesOwner(call: Call) {
    call.InsertCall? || call.BulkCall? || Owner(call.id) == Some(call.collection)
  }

  /** Calls that pass each id with its own collection act like calls on one table. */
  lemma {:induction false} OwnCollectionsAreTransparent(collections: map<Bytes, Schema>, calls: seq<Call>)
    requires forall i :: 0 <= i < |calls| ==> NamesOwner(calls[i])
    ensures FlatRun(collections, calls) == PlainRun(collections, calls)
    decreases calls
  {
    if calls != [] {
      OwnCollectionsAreTransparent(collections, calls[..|calls| - 1]);
      assert WellRouted(calls[|calls| - 1]);
    }
  }

  /** Every stored document of a collection with a name has a call that passes it by: named with
      another collection, its update and its deletion do nothing. */
  lemma OtherNameDoesNothing(collections: map<Bytes, Schema>, t: Table, c: Bytes, id: Bytes, update: Doc, now: int)
    requires Owner(id) == Some(c) && c != [] && id in t
    ensures var other := LowBitChanged(c);
      && FlatStep(collections, t, UpdateCall(other, id, update, now, false)) == t
      && FlatStep(collections, t, DeleteCall(other, id, false)) == t
      && id !in PlainStep(collections, t, DeleteCall(other, id, false))
  {
    OtherNameRoutesElsewhere(id, c);
  }

  ghost predicate Owned(t: Table) {
    forall id :: id in t ==> Owner(id) == Some(t[id].collection)
  }

  lemma {:induction false} PutsKeepOwned(t: Table, puts: seq<Put>, failed: set<nat>)
    requires Owned(t) && Generated(puts)
    ensures Owned(PutWithout(t, puts, failed))
    decreases puts
  {
    if puts != [] {
      PutsKeepOwned(t, puts[..|puts| - 1], failed);
    }
  }

  lemma BulkKeepsOwned(t: Table, c: Bytes, docs: seq<Doc>, clocks: nat -> int, failed: nat -> set<nat>)
    requires Owned(t)
    ensures Owned(AfterBulk(t, AllPuts(c, docs, clocks), failed))
  {
    var all := AllPuts(c, docs, clocks);
    AllIdsDistinct(c, docs, clocks);
    var stop := FirstFailing(all, failed, 0);
    var n := if stop == |all| then stop else stop / BATCH_SIZE * BATCH_SIZE;
    PutsKeepOwned(t, all[..n], {});
    PutsKeepOwned(PutWithout(t, all[..n], {}), all[n..Least(n + BATCH_SIZE, |all|)], failed(n / BATCH_SIZE));
  }

  /** In every run each stored id belongs to the collection of its row. */
  lemma {:induction false} RunsStoreOwnedRows(collections: map<Bytes, Schema>, calls: seq<Call>)
    ensures Owned(FlatRun(collections, calls))
    decreases calls
  {
    if calls != [] {
      RunsStoreOwnedRows(collections, calls[..|calls| - 1]);
      var last := calls[|calls| - 1];
      if last.InsertCall? {
        GeneratedIdOwner(last.collection, last.nanos, last.random);
      } else if last.BulkCall? {
        BulkKeepsOwned(FlatRun(collections, calls[..|calls| - 1]), last.collection, last.docs, last.clocks, last.failed);
      }
    }
  }
}

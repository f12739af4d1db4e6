/**
 The document tables of the sixteen shards, and the one table they stand for.

 Every stored id was generated from its collection, so the id alone determines the
 shard its row must be in (Home). Placed says that every row is where its id says.
 */
module ShardMaps {
  import opened Fnv
  import opened DocumentIds
  import opened Wrappers

  datatype FieldType = StringType | NumberType | BooleanType | OtherType
  datatype JsonValue = Text(text: Bytes) | Number(number: real) | Boolean(flag: bool) | Null | Nested(json: Bytes)

  type Doc = map<Bytes, JsonValue>
  type Schema = map<Bytes, FieldType>

  datatype Row = Row(collection: Bytes, data: Doc, createdAt: int, updatedAt: int)
  datatype Put = Put(id: Bytes, row: Row)

  type Table = map<Bytes, Row>
  type Shards = ss: seq<Table> | |ss| == SHARD_COUNT witness seq(SHARD_COUNT, _ => map[])

  // The collection an id was generated for
  function Owner(id: Bytes): Option<Bytes> {
    match ParseId(id)
    case None => None
    case Some((collection, _, _)) => Some(collection)
  }

  // The shard the row of a generated id belongs in
  function Home(id: Bytes): (s: nat)
    ensures s < SHARD_COUNT
  {
    match Owner(id)
    case None => 0
    case Some(collection) => GetShard(id, collection)
  }

  /** Every row lies in the shard its own id and collection are routed to. */
  ghost predicate Placed(shards: Shards) {
    forall s, id :: 0 <= s < SHARD_COUNT && id in shards[s] ==>
      Owner(id) == Some(shards[s][id].collection) && s == GetShard(id, shards[s][id].collection)
  }

  /** The union of the tables, later shards winning. */
  ghost function Union(ts: seq<Table>): Table {
    if ts == [] then map[] else Union(ts[..|ts| - 1]) + ts[|ts| - 1]
  }

  ghost predicate AtHome(ts: seq<Table>) {
    forall s, id :: 0 <= s < |ts| && id in ts[s] ==> s == Home(id)
  }

  lemma PlacedAtHome(shards: Shards)
    requires Placed(shards)
    ensures AtHome(shards)
  {}

  /** No id is in two shards. */
  lemma NoIdInTwoShards(shards: Shards, s: nat, t: nat, id: Bytes)
    requires Placed(shards) && s < SHARD_COUNT && t < SHARD_COUNT
    requires id in shards[s] && id in shards[t]
    ensures s == t
  {
    assert Owner(id) == Some(shards[s][id].collection) == Some(shards[t][id].collection);
  }

  lemma {:induction false} UnionLookup(ts: seq<Table>, id: Bytes)
    requires AtHome(ts)
    ensures id in Union(ts) <==> Home(id) < |ts| && id in ts[Home(id)]
    ensures id in Union(ts) ==> Union(ts)[id] == ts[Home(id)][id]
    decreases ts
  {
    if ts != [] {
      var init, last := ts[..|ts| - 1], ts[|ts| - 1];
      assert AtHome(init) by {
        forall s, i | 0 <= s < |init| && i in init[s] ensures s == Home(i) {
          assert i in ts[s];
        }
      }
      UnionLookup(init, id);
    }
  }

  /** Looking an id up in its home shard is looking it up in the union of all shards. */
  lemma LookupIsRouted(shards: Shards, id: Bytes)
    requires Placed(shards)
    ensures id in Union(shards) <==> id in shards[Home(id)]
    ensures id in Union(shards) ==> Union(shards)[id] == shards[Home(id)][id]
  {
    PlacedAtHome(shards);
    UnionLookup(shards, id);
  }

  /** Storing a row in its home shard stores it in the union. */
  lemma PutIsRouted(shards: Shards, id: Bytes, row: Row)
    requires Placed(shards) && Owner(id) == Some(row.collection)
    ensures var s := Home(id); var after := shards[s := shards[s][id := row]];
      Placed(after) && Union(after) == Union(shards)[id := row]
  {
    var s := Home(id);
    var after: Shards := shards[s := shards[s][id := row]];
    forall t, i | 0 <= t < SHARD_COUNT && i in after[t]
      ensures Owner(i) == Some(after[t][i].collection) && t == GetShard(i, after[t][i].collection)
    {
      assert (t == s && i == id) || (i in shards[t] && after[t][i] == shards[t][i]);
    }
    forall i ensures i in Union(after) <==> i in Union(shards)[id := row]
      ensures i in Union(after) ==> Union(after)[i] == Union(shards)[id := row][i]
    {
      LookupIsRouted(shards, i);
      LookupIsRouted(after, i);
    }
  }

  /** Deleting from the home shard deletes from the union. */
  lemma DeleteIsRouted(shards: Shards, id: Bytes)
    requires Placed(shards)
    ensures var s := Home(id); var after := shards[s := shards[s] - {id}];
      Placed(after) && Union(after) == Union(shards) - {id}
  {
    var s := Home(id);
    var after: Shards := shards[s := shards[s] - {id}];
    forall t, i | 0 <= t < SHARD_COUNT && i in after[t]
      ensures Owner(i) == Some(after[t][i].collection) && t == GetShard(i, after[t][i].collection)
    {
      assert i in shards[t] && after[t][i] == shards[t][i];
    }
    forall i ensures i in Union(after) <==> i in Union(shards) - {id}
      ensures i in Union(after) ==> Union(after)[i] == (Union(shards) - {id})[i]
    {
      LookupIsRouted(shards, i);
      LookupIsRouted(after, i);
    }
  }

  /** An id is absent from every shard but its home. */
  lemma ElsewhereAbsent(shards: Shards, s: nat, id: Bytes)
    requires Placed(shards) && s < SHARD_COUNT && s != Home(id)
    ensures id !in shards[s]
  {}

  lemma GeneratedIdOwner(collection: Bytes, time: int, number: nat)
    ensures Owner(MakeId(collection, time, number)) == Some(collection)
    ensures Home(MakeId(collection, time, number)) == GetShard(MakeId(collection, time, number), collection)
  {
    IdReadsBack(collection, time, number);
  }
}

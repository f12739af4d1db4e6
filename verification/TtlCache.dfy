/**
 The in-memory cache with expiry: a bounded map whose lookups read under one lock and
 delete an expired entry under another.

 Class Cache performs what happens under one lock. The machine below interleaves these
 critical sections for any number of lookups in progress, beside an ideal unbounded map
 that only Set, Del and Clear change.
 */
module TtlCache {
  import opened Wrappers

  type Key(==)
  type Value(==)

  datatype Item = Item(value: Value, expiration: int)

  // Setting a key: a full cache first drops one arbitrary entry
  function AfterSet(items: map<Key, Item>, maxSize: int, key: Key, item: Item, victim: Key): map<Key, Item> {
    (if |items| >= maxSize then items - {victim} else items)[key := item]
  }

  // A victim the iteration over the map can meet first
  predicate MayEvict(items: map<Key, Item>, maxSize: int, victim: Key) {
    |items| >= maxSize && items != map[] ==> victim in items
  }

  function AfterSweep(items: map<Key, Item>, now: int): map<Key, Item> {
    map k | k in items && now <= items[k].expiration :: items[k]
  }

  function Bound(maxSize: int): nat {
    if maxSize < 1 then 1 else maxSize
  }

  lemma SetStaysBounded(items: map<Key, Item>, maxSize: int, key: Key, item: Item, victim: Key)
    requires |items| <= Bound(maxSize) && MayEvict(items, maxSize, victim)
    ensures |AfterSet(items, maxSize, key, item, victim)| <= Bound(maxSize)
  {
    var kept := if |items| >= maxSize then items - {victim} else items;
    assert |items| >= maxSize && items != map[] ==> |kept| == |items| - 1 by {
      if |items| >= maxSize && items != map[] {
        assert kept.Keys == items.Keys - {victim};
      }
    }
    assert kept[key := item].Keys == kept.Keys + {key};
  }

  // All entries but that of the key, and the evicted ones, are as before
  ghost predicate KeepsOthers(before: map<Key, Item>, after: map<Key, Item>, key: Key, evicted: set<Key>) {
    && after.Keys - {key} == before.Keys - evicted - {key}
    && forall k :: k in after && k != key ==> k in before && after[k] == before[k]
  }

  /** A set gives the key its item, and takes at most the victim away, and that only from a
      full cache. */
  lemma SetKeepsOthers(items: map<Key, Item>, maxSize: int, key: Key, item: Item, victim: Key)
    ensures var after := AfterSet(items, maxSize, key, item, victim);
      && key in after && after[key] == item
      && KeepsOthers(items, after, key, if |items| < maxSize then {} else {victim})
  {}

  lemma SmallerMap(a: map<Key, Item>, b: map<Key, Item>)
    requires a.Keys <= b.Keys
    ensures |a| <= |b|
  {
    assert |b.Keys| == |a.Keys| + |b.Keys - a.Keys| by {
      assert b.Keys == a.Keys + (b.Keys - a.Keys);
    }
  }

  class Cache {
    var items: map<Key, Item>
    const maxSize: int
    const defaultTTL: int

    ghost predicate Valid()
      reads this
    {
      |items| <= Bound(maxSize)
    }

    constructor (maxSize: int, defaultTTL: int)
      ensures Valid() && items == map[] && this.maxSize == maxSize && this.defaultTTL == defaultTTL
    {
      items := map[];
      this.maxSize, this.defaultTTL := maxSize, defaultTTL;
    }

    // cache.go, lines 42 to 47: a full cache drops the first entry the iteration meets, if any
    method MakeRoom(ghost key: Key) returns (ghost victim: Key)
      modifies this
      ensures MayEvict(old(items), maxSize, victim)
      ensures items == if |old(items)| >= maxSize then old(items) - {victim} else old(items)
    {
      victim := key;
      if |items| >= maxSize {
        var keys := items.Keys;
        if keys != {} {
          var k :| k in keys;
          items := items - {k};
          victim := k;
        }
      }
    }

    method Set(key: Key, value: Value, ttl: Option<int>, now: int) returns (ghost victim: Key)
      requires Valid()
      modifies this
      ensures Valid() && MayEvict(old(items), maxSize, victim)
      ensures var lifetime := if ttl.Some? then ttl.value else defaultTTL;
        && items == AfterSet(old(items), maxSize, key, Item(value, now + lifetime), victim)
        && key in items && items[key] == Item(value, now + lifetime)
      ensures KeepsOthers(old(items), items, key, if |old(items)| < maxSize then {} else {victim})
    {
      ghost var before := items;
      victim := MakeRoom(key);
      var exp := now + defaultTTL;
      if ttl.Some? {
        exp := now + ttl.value;
      }
      items := items[key := Item(value, exp)];
      SetStaysBounded(before, maxSize, key, Item(value, exp), victim);
      SetKeepsOthers(before, maxSize, key, Item(value, exp), victim);
    }

    // cache.go, lines 61 to 63: the lookup's first critical section
    method Read(key: Key) returns (item: Option<Item>)
      ensures item == Newest(items, key)
    {
      return if key in items then Some(items[key]) else None;
    }

    /** A lookup that nothing interferes with: the stored value if it has not expired; an
        expired entry is removed. */
    method Get(key: Key, now: int) returns (r: Option<Value>)
      requires Valid()
      modifies this
      ensures Valid()
      ensures r == if key in old(items) && now <= old(items)[key].expiration then Some(old(items)[key].value) else None
      ensures items == if key in old(items) && now > old(items)[key].expiration then old(items) - {key} else old(items)
    {
      var item := Read(key);
      if item.None? {
        return None;
      }
      if now > item.value.expiration {
        Del(key);
        return None;
      }
      return Some(item.value.value);
    }

    method Del(key: Key)
      requires Valid()
      modifies this
      ensures Valid() && items == old(items) - {key}
    {
      SmallerMap(items - {key}, items);
      items := items - {key};
    }

    method Clear()
      modifies this
      ensures Valid() && items == map[]
    {
      items := map[];
    }

    // One tick of the sweeper
    method Sweep(now: int)
      requires Valid()
      modifies this
      ensures Valid() && items == AfterSweep(old(items), now)
      ensures forall k :: k in items <==> k in old(items) && now <= old(items)[k].expiration
      ensures forall k :: k in items ==> items[k] == old(items)[k]
    {
      var keys := items.Keys;
      SmallerMap(AfterSweep(items, now), items);
      while keys != {}
        invariant keys <= old(items).Keys
        invariant forall k :: k in items <==> k in old(items) && (k in keys || now <= old(items)[k].expiration)
        invariant forall k :: k in items ==> items[k] == old(items)[k]
        decreases keys
      {
        var k :| k in keys;
        if now > items[k].expiration {
          items := items - {k};
        }
        keys := keys - {k};
      }
      assert items == AfterSweep(old(items), now);
    }
  }

  // ---------- All interleavings ----------

  // Where a lookup is: it has read an entry, or found it expired and will delete the key.
  // newest is what the ideal map held when it read, and readAt how many sets there had been.
  datatype Lookup =
    | HasRead(key: Key, item: Item, newest: Option<Item>, readAt: nat)
    | WillDelete(key: Key, item: Item, newest: Option<Item>, readAt: nat, checkedAt: int)

  // A finished lookup; without a check if there was no entry to read
  datatype Answer = Answer(key: Key, newest: Option<Item>, checkedAt: Option<int>, result: Option<Value>)

  datatype State = State(
    items: map<Key, Item>,
    ideal: map<Key, Item>,
    lookups: map<nat, Lookup>,
    answers: seq<Answer>,
    sets: seq<(Key, Item)>  // all sets, in order
  )

  datatype Action =
    | SetAction(key: Key, item: Item, victim: Key)
    | DelAction(key: Key)
    | ClearAction
    | SweepAction(now: int)
    | ReadAction(caller: nat, key: Key)
    | CheckAction(caller: nat, now: int)
    | DeleteAction(caller: nat)

  ghost function Newest(m: map<Key, Item>, key: Key): Option<Item> {
    if key in m then Some(m[key]) else None
  }

  ghost function AfterRead(s: State, caller: nat, key: Key): State {
    if caller in s.lookups then s
    else if key in s.items then
      s.(lookups := s.lookups[caller := HasRead(key, s.items[key], Newest(s.ideal, key), |s.sets|)])
    else s.(answers := s.answers + [Answer(key, Newest(s.ideal, key), None, None)])
  }

  ghost function AfterCheck(s: State, caller: nat, now: int): State {
    if caller !in s.lookups || !s.lookups[caller].HasRead? then s
    else
      var HasRead(key, item, newest, readAt) := s.lookups[caller];
      if now > item.expiration then s.(lookups := s.lookups[caller := WillDelete(key, item, newest, readAt, now)])
      else s.(lookups := s.lookups - {caller},
              answers := s.answers + [Answer(key, newest, Some(now), Some(item.value))])
  }

  ghost function AfterDelete(s: State, caller: nat): State {
    if caller !in s.lookups || !s.lookups[caller].WillDelete? then s
    else
      var WillDelete(key, item, newest, _, now) := s.lookups[caller];
      s.(items := s.items - {key}, lookups := s.lookups - {caller},
         answers := s.answers + [Answer(key, newest, Some(now), None)])
  }

  // One critical section, or one clock check; an action that cannot happen changes nothing
  ghost function Step(s: State, maxSize: int, a: Action): State {
    match a
    case SetAction(key, item, victim) =>
      if MayEvict(s.items, maxSize, victim) then
        s.(items := AfterSet(s.items, maxSize, key, item, victim), ideal := s.ideal[key := item],
           sets := s.sets + [(key, item)])
      else s
    case DelAction(key) => s.(items := s.items - {key}, ideal := s.ideal - {key})
    case ClearAction => s.(items := map[], ideal := map[])
    case SweepAction(now) => s.(items := AfterSweep(s.items, now))
    case ReadAction(caller, key) => AfterRead(s, caller, key)
    case CheckAction(caller, now) => AfterCheck(s, caller, now)
    case DeleteAction(caller) => AfterDelete(s, caller)
  }

  ghost function Run(maxSize: int, actions: seq<Action>): State {
    if actions == [] then State(map[], map[], map[], [], [])
    else Step(Run(maxSize, actions[..|actions| - 1]), maxSize, actions[|actions| - 1])
  }

  ghost predicate Submap(items: map<Key, Item>, ideal: map<Key, Item>) {
    forall k :: k in items ==> k in ideal && items[k] == ideal[k]
  }

  // A lookup that read an entry read the newest one
  ghost predicate LookupOk(l: Lookup) {
    l.newest == Some(l.item) && (l.WillDelete? ==> l.checkedAt > l.item.expiration)
  }

  /** A lookup that read an entry answers with the value that was newest when it read, exactly
      if that value had not expired when it checked. */
  ghost predicate AnswerOk(a: Answer) {
    && (a.checkedAt.None? ==> a.result.None?)
    && (a.checkedAt.Some? ==> a.newest.Some?)
    && (a.checkedAt.Some? && a.checkedAt.value <= a.newest.value.expiration ==> a.result == Some(a.newest.value.value))
    && (a.checkedAt.Some? && a.checkedAt.value > a.newest.value.expiration ==> a.result == None)
  }

  ghost predicate Inv(s: State, maxSize: int) {
    && Submap(s.items, s.ideal)
    && |s.items| <= Bound(maxSize)
    && (forall c :: c in s.lookups ==> LookupOk(s.lookups[c]))
    && (forall i :: 0 <= i < |s.answers| ==> AnswerOk(s.answers[i]))
  }

  lemma SetKeepsSubmap(items: map<Key, Item>, ideal: map<Key, Item>, maxSize: int, key: Key, item: Item, victim: Key)
    requires Submap(items, ideal)
    ensures Submap(AfterSet(items, maxSize, key, item, victim), ideal[key := item])
  {}

  lemma RemovalKeepsSubmap(items: map<Key, Item>, ideal: map<Key, Item>, key: Key)
    requires Submap(items, ideal)
    ensures Submap(items - {key}, ideal - {key}) && |items - {key}| <= |items|
  {
    SmallerMap(items - {key}, items);
  }

  lemma SweepKeepsSubmap(items: map<Key, Item>, ideal: map<Key, Item>, now: int)
    requires Submap(items, ideal)
    ensures Submap(AfterSweep(items, now), ideal) && |AfterSweep(items, now)| <= |items|
  {
    SmallerMap(AfterSweep(items, now), items);
  }

  lemma SetKeepsInv(s: State, maxSize: int, key: Key, item: Item, victim: Key)
    requires Inv(s, maxSize)
    ensures Inv(Step(s, maxSize, SetAction(key, item, victim)), maxSize)
  {
    if MayEvict(s.items, maxSize, victim) {
      SetKeepsSubmap(s.items, s.ideal, maxSize, key, item, victim);
      SetStaysBounded(s.items, maxSize, key, item, victim);
    }
  }

  lemma AnswersExtend(answers: seq<Answer>, a: Answer)
    requires forall i :: 0 <= i < |answers| ==> AnswerOk(answers[i])
    requires AnswerOk(a)
    ensures forall i :: 0 <= i < |answers + [a]| ==> AnswerOk((answers + [a])[i])
  {}

  lemma ReadKeepsInv(s: State, maxSize: int, caller: nat, key: Key)
    requires Inv(s, maxSize)
    ensures Inv(AfterRead(s, caller, key), maxSize)
  {
    AnswersExtend(s.answers, Answer(key, Newest(s.ideal, key), None, None));
  }

  lemma CheckKeepsInv(s: State, maxSize: int, caller: nat, now: int)
    requires Inv(s, maxSize)
    ensures Inv(AfterCheck(s, caller, now), maxSize)
  {
    if caller in s.lookups && s.lookups[caller].HasRead? && now <= s.lookups[caller].item.expiration {
      var HasRead(key, item, newest, _) := s.lookups[caller];
      assert LookupOk(s.lookups[caller]);
      AnswersExtend(s.answers, Answer(key, newest, Some(now), Some(item.value)));
    }
  }

  lemma DeleteKeepsInv(s: State, maxSize: int, caller: nat)
    requires Inv(s, maxSize)
    ensures Inv(AfterDelete(s, caller), maxSize)
  {
    if caller in s.lookups && s.lookups[caller].WillDelete? {
      var WillDelete(key, item, newest, _, now) := s.lookups[caller];
      assert LookupOk(s.lookups[caller]);
      AnswersExtend(s.answers, Answer(key, newest, Some(now), None));
      SmallerMap(s.items - {key}, s.items);
    }
  }

  lemma StepKeepsInv(s: State, maxSize: int, a: Action)
    requires Inv(s, maxSize)
    ensures Inv(Step(s, maxSize, a), maxSize)
  {
    match a
    case ReadAction(caller, key) => ReadKeepsInv(s, maxSize, caller, key);
    case CheckAction(caller, now) => CheckKeepsInv(s, maxSize, caller, now);
    case DeleteAction(caller) => DeleteKeepsInv(s, maxSize, caller);
    case SetAction(key, item, victim) => SetKeepsInv(s, maxSize, key, item, victim);
    case DelAction(key) => RemovalKeepsSubmap(s.items, s.ideal, key);
    case ClearAction =>
    case SweepAction(now) => SweepKeepsSubmap(s.items, s.ideal, now);
  }

  /** In every interleaving the cache holds part of the ideal map and stays within its bound,
      and every answer is the newest value at the time of the read. */
  lemma {:induction false} EveryRunIsSafe(maxSize: int, actions: seq<Action>)
    ensures Inv(Run(maxSize, actions), maxSize)
    decreases actions
  {
    if actions != [] {
      var last := actions[|actions| - 1];
      EveryRunIsSafe(maxSize, actions[..|actions| - 1]);
      StepKeepsInv(Run(maxSize, actions[..|actions| - 1]), maxSize, last);
    }
  }

  // ---------- When a late deletion loses a value ----------

  // The last set of a key among the given ones
  ghost function LastSet(sets: seq<(Key, Item)>, key: Key): Option<nat> {
    if sets == [] then None
    else if sets[|sets| - 1].0 == key then Some(|sets| - 1)
    else LastSet(sets[..|sets| - 1], key)
  }

  lemma {:induction false} LastSetIsOne(sets: seq<(Key, Item)>, key: Key)
    ensures var p := LastSet(sets, key); p.Some? ==> p.value < |sets| && sets[p.value].0 == key
    decreases sets
  {
    if sets != [] {
      LastSetIsOne(sets[..|sets| - 1], key);
    }
  }

  // If the last set was among the first n, it was their last
  lemma {:induction false} LastSetBefore(sets: seq<(Key, Item)>, key: Key, n: nat)
    requires n <= |sets| && LastSet(sets, key).Some? && LastSet(sets, key).value < n
    ensures LastSet(sets[..n], key) == LastSet(sets, key)
    decreases sets
  {
    if n < |sets| {
      LastSetBefore(sets[..|sets| - 1], key, n);
      assert sets[..|sets| - 1][..n] == sets[..n];
    } else {
      assert sets[..n] == sets;
    }
  }

  // The item of the last set
  ghost predicate SetLast(sets: seq<(Key, Item)>, key: Key, item: Item) {
    var p := LastSet(sets, key);
    p.Some? && p.value < |sets| && sets[p.value].1 == item
  }

  ghost predicate IdealSet(sets: seq<(Key, Item)>, ideal: map<Key, Item>) {
    forall k :: k in ideal ==> SetLast(sets, k, ideal[k])
  }

  ghost predicate ReadSet(sets: seq<(Key, Item)>, l: Lookup) {
    l.readAt <= |sets| && SetLast(sets[..l.readAt], l.key, l.item)
  }

  // What is ideal, and what a lookup read, comes from the last set of the key by then
  ghost predicate SetsOk(s: State) {
    IdealSet(s.sets, s.ideal) && forall c :: c in s.lookups ==> ReadSet(s.sets, s.lookups[c])
  }

  lemma IdealExtends(sets: seq<(Key, Item)>, ideal: map<Key, Item>, key: Key, item: Item)
    requires IdealSet(sets, ideal)
    ensures IdealSet(sets + [(key, item)], ideal[key := item])
  {
    var after, later := sets + [(key, item)], ideal[key := item];
    assert after[..|after| - 1] == sets;
    forall k | k in later ensures SetLast(after, k, later[k]) {
      if k != key {
        assert SetLast(sets, k, ideal[k]) && LastSet(after, k) == LastSet(sets, k);
      }
    }
  }

  lemma ReadExtends(sets: seq<(Key, Item)>, e: (Key, Item), l: Lookup)
    requires ReadSet(sets, l)
    ensures ReadSet(sets + [e], l)
  {
    assert (sets + [e])[..l.readAt] == sets[..l.readAt];
  }

  lemma SetKeepsSets(s: State, maxSize: int, key: Key, item: Item, victim: Key)
    requires SetsOk(s)
    ensures SetsOk(Step(s, maxSize, SetAction(key, item, victim)))
  {
    IdealExtends(s.sets, s.ideal, key, item);
    forall c | c in s.lookups ensures ReadSet(s.sets + [(key, item)], s.lookups[c]) {
      ReadExtends(s.sets, (key, item), s.lookups[c]);
    }
  }

  lemma ReadKeepsSets(s: State, caller: nat, key: Key)
    requires SetsOk(s) && Submap(s.items, s.ideal)
    ensures SetsOk(AfterRead(s, caller, key))
  {
    assert s.sets[..|s.sets|] == s.sets;
  }

  lemma {:induction false} EveryRunKnowsItsSets(maxSize: int, actions: seq<Action>)
    ensures SetsOk(Run(maxSize, actions))
    decreases actions
  {
    if actions != [] {
      var last := actions[|actions| - 1];
      var s := Run(maxSize, actions[..|actions| - 1]);
      EveryRunKnowsItsSets(maxSize, actions[..|actions| - 1]);
      EveryRunIsSafe(maxSize, actions[..|actions| - 1]);
      match last
      case SetAction(key, item, victim) => SetKeepsSets(s, maxSize, key, item, victim);
      case ReadAction(caller, key) => ReadKeepsSets(s, caller, key);
      case _ => OthersKeepSets(s, maxSize, last);
    }
  }

  lemma OthersKeepSets(s: State, maxSize: int, a: Action)
    requires SetsOk(s) && !a.SetAction? && !a.ReadAction?
    ensures SetsOk(Step(s, maxSize, a))
  {}

  // The deletion takes a value away that had not expired at the lookup's check
  ghost predicate LosesFreshValue(s: State, l: Lookup)
    requires l.WillDelete?
  {
    l.key in s.items && s.items[l.key].expiration >= l.checkedAt
  }

  /** In every run a lookup about to delete loses a fresh value if and only if the key is still
      there, was last set after the lookup read it, and with an expiration not before the
      lookup's check. */
  lemma LateDeleteLosesExactly(maxSize: int, actions: seq<Action>, caller: nat)
    requires var s := Run(maxSize, actions); caller in s.lookups && s.lookups[caller].WillDelete?
    ensures var s := Run(maxSize, actions); var l := s.lookups[caller]; var p := LastSet(s.sets, l.key);
      LosesFreshValue(s, l) <==>
        && l.key in s.items && p.Some? && l.readAt <= p.value < |s.sets|
        && s.sets[p.value].1.expiration >= l.checkedAt
  {
    EveryRunIsSafe(maxSize, actions);
    EveryRunKnowsItsSets(maxSize, actions);
    var s := Run(maxSize, actions);
    var l := s.lookups[caller];
    var p := LastSet(s.sets, l.key);
    assert LookupOk(l) && ReadSet(s.sets, l);
    if l.key in s.items {
      assert SetLast(s.sets, l.key, s.items[l.key]);
      if p.value < l.readAt {
        LastSetBefore(s.sets, l.key, l.readAt);
        assert s.items[l.key] == l.item;
      }
    }
  }

  /** The value lost is another one than the lookup read. */
  lemma LateDeleteHarmsOnlyNewerValues(maxSize: int, actions: seq<Action>, caller: nat)
    requires var s := Run(maxSize, actions); caller in s.lookups && s.lookups[caller].WillDelete?
    ensures var s := Run(maxSize, actions); var l := s.lookups[caller];
      LosesFreshValue(s, l) ==> s.items[l.key] != l.item
  {
    EveryRunIsSafe(maxSize, actions);
  }

  /** And it does happen, from every state with an expired entry: a value set while a lookup
      is between its check and its deletion is lost, although it has not expired and nothing
      removed, replaced or evicted it. */
  lemma LateDeleteLosesFreshValue(s: State, maxSize: int, caller: nat, key: Key, young: Item, now: int)
    requires key in s.items && caller !in s.lookups
    requires s.items[key].expiration < now <= young.expiration
    ensures var s1 := Step(s, maxSize, ReadAction(caller, key));
      var s2 := Step(s1, maxSize, CheckAction(caller, now));
      var s3 := Step(s2, maxSize, SetAction(key, young, key));
      var s4 := Step(s3, maxSize, DeleteAction(caller));
      && Newest(s3.items, key) == Some(young) && key !in s4.items
      && Newest(s4.ideal, key) == Some(young)
  {
    var s2 := AfterCheck(AfterRead(s, caller, key), caller, now);
    assert s2.items == s.items && s2.lookups[caller].WillDelete? && s2.lookups[caller].key == key;
  }

  /** A lookup that nothing comes between acts like the method Get. */
  lemma LookupAlone(s: State, maxSize: int, caller: nat, key: Key, now: int)
    requires caller !in s.lookups
    ensures var t := Step(Step(Step(s, maxSize, ReadAction(caller, key)), maxSize, CheckAction(caller, now)),
                          maxSize, DeleteAction(caller));
      var found := key in s.items; var live := found && now <= s.items[key].expiration;
      && t.lookups == s.lookups && t.ideal == s.ideal
      && t.items == (if found && !live then s.items - {key} else s.items)
      && |t.answers| == |s.answers| + 1
      && t.answers[|s.answers|].result == if live then Some(s.items[key].value) else None
  {
    var read := AfterRead(s, caller, key);
    var checked := AfterCheck(read, caller, now);
    if key in s.items {
      assert read.lookups[caller] == HasRead(key, s.items[key], Newest(s.ideal, key), |s.sets|);
      assert (read.lookups - {caller}) == s.lookups;
      assert (checked.lookups - {caller}) == s.lookups;
    }
  }
}

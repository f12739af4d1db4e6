/**
 What the B-tree does with keys of any types, between which the comparison is no order.

 The library's binary search is then only some way to a position. Insertion still keeps the
 shape and loses nothing, and every lookup ends. For keys of one supported type, insertion
 is that of BTreeModel and lookups find what they look for.
 */
module BTreeMixed {
  import opened Fnv
  import opened IndexKeys
  import opened BTreeModel
  import opened Wrappers

  // The library's search between two positions, whether or not the predicate is monotone
  function BinarySearch(es: seq<Entry>, key: Key, i: nat, j: nat): (pos: nat)
    requires i <= j <= |es|
    ensures i <= pos <= j
    decreases j - i
  {
    if i == j then i
    else
      var h := (i + j) / 2;
      if Compare(es[h].key, key) >= 0 then BinarySearch(es, key, i, h) else BinarySearch(es, key, h + 1, j)
  }

  function Position(es: seq<Entry>, key: Key): (pos: nat)
    ensures pos <= |es|
  {
    BinarySearch(es, key, 0, |es|)
  }

  // ---------- Insertion ----------

  ghost function Descend(t: Tree, degree: nat, key: Key): (r: (Tree, nat))
    requires degree >= 1 && t.Inner? && |t.children| == |t.entries| + 1
    ensures r.0.Inner? && |r.0.children| == |r.0.entries| + 1 && r.1 <= |r.0.entries|
  {
    var pos := Position(t.entries, key);
    if Full(t.children[pos], degree) then
      var t' := SplitChild(t, pos, degree);
      (t', if Compare(key, t'.entries[pos].key) > 0 then pos + 1 else pos)
    else
      (t, pos)
  }

  /** The position is that of a child with room, whatever the keys. */
  lemma DescendHasRoom(t: Tree, degree: nat, h: nat, root: bool, key: Key)
    requires degree >= 1 && Shape(t, degree, h, root) && t.Inner? && !Full(t, degree)
    ensures var (t', pos) := Descend(t, degree, key);
      && Shape(t', degree, h, root) && InOrder(t') == InOrder(t) && !Full(t'.children[pos], degree)
  {
    var p := Position(t.entries, key);
    var c := t.children[p];
    assert Shape(c, degree, h - 1, false);
    if Full(c, degree) {
      SplitChildCorrect(t, p, degree, h, root);
      SplitHasRoom(t, p, degree);
    }
  }

  lemma SplitHasRoom(t: Tree, p: nat, degree: nat)
    requires degree >= 1 && t.Inner? && p <= |t.entries| && p < |t.children| && Full(t.children[p], degree)
    requires t.children[p].Inner? ==> degree <= |t.children[p].children|
    ensures var u := SplitChild(t, p, degree);
      p + 1 < |u.children| && !Full(u.children[p], degree) && !Full(u.children[p + 1], degree)
  {
    HalvesHaveRoom(t.children[p], degree);
    SplitChildHalves(t, p, degree);
  }

  ghost function InsertAny(t: Tree, degree: nat, h: nat, root: bool, e: Entry): Tree
    requires degree >= 1 && Shape(t, degree, h, root) && !Full(t, degree)
    decreases h
  {
    match t
    case Leaf(es) => Leaf(InsertAt(es, Position(es, e.key), e))
    case Inner(_, _) =>
      DescendHasRoom(t, degree, h, root, e.key);
      var (t', pos) := Descend(t, degree, e.key);
      Inner(t'.entries, t'.children[pos := InsertAny(t'.children[pos], degree, h - 1, false, e)])
  }

  lemma InsertAtAdds(es: seq<Entry>, pos: nat, e: Entry)
    requires pos <= |es|
    ensures multiset(InsertAt(es, pos, e)) == multiset(es) + multiset{e}
  {
    assert es == es[..pos] + es[pos..];
  }

  lemma ReplacedChildAdds(t: Tree, pos: nat, c: Tree, e: Entry)
    requires t.Inner? && |t.children| == |t.entries| + 1 && pos <= |t.entries|
    requires multiset(InOrder(c)) == multiset(InOrder(t.children[pos])) + multiset{e}
    ensures multiset(InOrder(Inner(t.entries, t.children[pos := c]))) == multiset(InOrder(t)) + multiset{e}
  {
    assert t == Inner(t.entries, t.children);
    CutAtChild(t.entries, t.children, pos);
    ReplaceChild(t.entries, t.children, pos, c);
  }

  /** Keys of any types: insertion keeps the shape. */
  lemma {:induction false} InsertAnyKeepsShape(t: Tree, degree: nat, h: nat, root: bool, e: Entry)
    requires degree >= 1 && Shape(t, degree, h, root) && !Full(t, degree)
    ensures Shape(InsertAny(t, degree, h, root, e), degree, h, root)
    decreases h
  {
    if t.Inner? {
      DescendHasRoom(t, degree, h, root, e.key);
      var (t', pos) := Descend(t, degree, e.key);
      InsertAnyKeepsShape(t'.children[pos], degree, h - 1, false, e);
    }
  }

  lemma InsertAnyUnfolds(t: Tree, degree: nat, h: nat, root: bool, e: Entry, t': Tree, pos: nat, c: Tree)
    requires degree >= 1 && Shape(t, degree, h, root) && !Full(t, degree) && t.Inner?
    requires (t', pos) == Descend(t, degree, e.key) && Shape(t', degree, h, root) && !Full(t'.children[pos], degree)
    requires c == InsertAny(t'.children[pos], degree, h - 1, false, e)
    ensures InsertAny(t, degree, h, root, e) == Inner(t'.entries, t'.children[pos := c])
  {}

  /** Keys of any types: insertion adds its entry to those stored, and loses none. */
  lemma {:induction false} InsertLosesNothing(t: Tree, degree: nat, h: nat, root: bool, e: Entry)
    requires degree >= 1 && Shape(t, degree, h, root) && !Full(t, degree)
    ensures multiset(InOrder(InsertAny(t, degree, h, root, e))) == multiset(InOrder(t)) + multiset{e}
    decreases h
  {
    if t.Leaf? {
      InsertAtAdds(t.entries, Position(t.entries, e.key), e);
    } else {
      DescendHasRoom(t, degree, h, root, e.key);
      var (t', pos) := Descend(t, degree, e.key);
      var c := InsertAny(t'.children[pos], degree, h - 1, false, e);
      InsertLosesNothing(t'.children[pos], degree, h - 1, false, e);
      InsertAnyUnfolds(t, degree, h, root, e, t', pos, c);
      ReplacedChildAdds(t', pos, c, e);
    }
  }

  // ---------- The whole tree, whose root may grow ----------

  ghost function Roomy(t: Tree, degree: nat, h: nat): (Tree, nat)
    requires degree >= 1
  {
    if Full(t, degree) then (GrowRoot(t, degree), h + 1) else (t, h)
  }

  lemma RoomyCorrect(t: Tree, degree: nat, h: nat)
    requires degree >= 1 && Shape(t, degree, h, true)
    ensures var (t', h') := Roomy(t, degree, h);
      Shape(t', degree, h', true) && !Full(t', degree) && InOrder(t') == InOrder(t)
  {
    if Full(t, degree) {
      GrowRootCorrect(t, degree, h);
    }
  }

  ghost function InsertRoot(t: Tree, degree: nat, h: nat, e: Entry): (Tree, nat)
    requires degree >= 1 && Shape(t, degree, h, true)
  {
    RoomyCorrect(t, degree, h);
    var (t', h') := Roomy(t, degree, h);
    (InsertAny(t', degree, h', true, e), h')
  }

  lemma InsertRootCorrect(t: Tree, degree: nat, h: nat, e: Entry)
    requires degree >= 1 && Shape(t, degree, h, true)
    ensures var (t', h') := InsertRoot(t, degree, h, e);
      Shape(t', degree, h', true) && multiset(InOrder(t')) == multiset(InOrder(t)) + multiset{e}
    ensures |InOrder(InsertRoot(t, degree, h, e).0)| == |InOrder(t)| + 1
  {
    RoomyCorrect(t, degree, h);
    var (u, k) := Roomy(t, degree, h);
    InsertAnyKeepsShape(u, degree, k, true, e);
    InsertLosesNothing(u, degree, k, true, e);
    OneLonger(InOrder(t), InOrder(InsertRoot(t, degree, h, e).0), e);
  }

  lemma OneLonger(s: seq<Entry>, t: seq<Entry>, e: Entry)
    requires multiset(t) == multiset(s) + multiset{e}
    ensures |t| == |s| + 1
  {
    assert |t| == |multiset(t)| && |s| == |multiset(s)|;
  }

  // ---------- For keys of one type ----------

  lemma {:induction false} SearchFinds(es: seq<Entry>, key: Key, i: nat, j: nat, p: nat)
    requires i <= p <= j <= |es|
    requires forall k :: 0 <= k < |es| ==> (Compare(es[k].key, key) >= 0 <==> p <= k)
    ensures BinarySearch(es, key, i, j) == p
    decreases j - i
  {
    if i < j {
      var h := (i + j) / 2;
      if p <= h {
        SearchFinds(es, key, i, h, p);
      } else {
        SearchFinds(es, key, h + 1, j, p);
      }
    }
  }

  lemma PositionIsLowerBound(es: seq<Entry>, key: Key, kind: Kind)
    requires Sorted(es, kind) && key.Kind() == kind != UnsupportedKind
    ensures Position(es, key) == LowerBound(es, key)
  {
    var p := LowerBound(es, key);
    forall k | p <= k < |es| ensures Compare(es[k].key, key) >= 0 {
      CompareFlips(es[p].key, key);
      CompareFlips(es[k].key, key);
      IsTotalOrder(key, es[p].key, es[k].key);
    }
    SearchFinds(es, key, 0, |es|, p);
  }

  lemma DescendIsDescendAt(t: Tree, degree: nat, h: nat, root: bool, key: Key, kind: Kind)
    requires degree >= 1 && Shape(t, degree, h, root) && t.Inner?
    requires Sorted(InOrder(t), kind) && key.Kind() == kind != UnsupportedKind
    ensures Descend(t, degree, key) == DescendAt(t, degree, key)
  {
    NodeSorted(t, kind);
    PositionIsLowerBound(t.entries, key, kind);
  }

  lemma SameBelow(t: Tree, degree: nat, h: nat, root: bool, e: Entry, kind: Kind)
    requires degree >= 1 && Shape(t, degree, h, root) && !Full(t, degree) && t.Inner?
    requires Sorted(InOrder(t), kind) && e.key.Kind() == kind != UnsupportedKind
    requires var (t', pos) := Descend(t, degree, e.key);
      && Shape(t', degree, h, root) && !Full(t'.children[pos], degree)
      && InsertAny(t'.children[pos], degree, h - 1, false, e) == InsertNonFull(t'.children[pos], degree, h - 1, false, e)
    ensures InsertAny(t, degree, h, root, e) == InsertNonFull(t, degree, h, root, e)
  {
    DescendIsDescendAt(t, degree, h, root, e.key, kind);
  }

  /** In an index of one key type, this is the insertion of the model. */
  lemma {:induction false} InsertAnyIsInsert(t: Tree, degree: nat, h: nat, root: bool, e: Entry, kind: Kind)
    requires degree >= 1 && Shape(t, degree, h, root) && !Full(t, degree)
    requires Sorted(InOrder(t), kind) && e.key.Kind() == kind != UnsupportedKind
    ensures InsertAny(t, degree, h, root, e) == InsertNonFull(t, degree, h, root, e)
    decreases h
  {
    if t.Leaf? {
      PositionIsLowerBound(t.entries, e.key, kind);
    } else {
      DescendHasRoom(t, degree, h, root, e.key);
      var (t', pos) := Descend(t, degree, e.key);
      assert Sorted(InOrder(t'.children[pos]), kind) by {
        assert t' == Inner(t'.entries, t'.children);
        ChildSorted(t'.entries, t'.children, pos, kind);
      }
      InsertAnyIsInsert(t'.children[pos], degree, h - 1, false, e, kind);
      SameBelow(t, degree, h, root, e, kind);
    }
  }

  lemma InsertRootRefinesList(t: Tree, degree: nat, h: nat, e: Entry, kind: Kind)
    requires degree >= 1 && Shape(t, degree, h, true)
    requires Sorted(InOrder(t), kind) && e.key.Kind() == kind != UnsupportedKind
    ensures InOrder(InsertRoot(t, degree, h, e).0) == Inserted(InOrder(t), e)
  {
    RoomyCorrect(t, degree, h);
    var (u, k) := Roomy(t, degree, h);
    InsertAnyIsInsert(u, degree, k, true, e, kind);
    InsertRefinesList(u, degree, k, true, e, kind);
  }

  // ---------- Lookup ----------

  // The entry a lookup stops at
  ghost function SearchEntry(t: Tree, degree: nat, h: nat, root: bool, key: Key): Option<Entry>
    requires degree >= 1 && Shape(t, degree, h, root)
    decreases h
  {
    var idx := Position(t.entries, key);
    if idx < |t.entries| && Compare(key, t.entries[idx].key) == 0 then Some(t.entries[idx])
    else if t.Leaf? then None
    else SearchEntry(t.children[idx], degree, h - 1, false, key)
  }

  /** A lookup is right if it stops at an entry with that very key, or at none and there is none. */
  ghost predicate Right(r: Option<Entry>, stored: seq<Entry>, key: Key) {
    if r.Some? then r.value in stored && r.value.key == key else forall e :: e in stored ==> e.key != key
  }

  // A lookup stops only at entries that compare equal
  lemma ChildInOrder(t: Tree, idx: nat)
    requires t.Inner? && idx < |t.children| == |t.entries| + 1
    ensures forall e :: e in InOrder(t.children[idx]) ==> e in InOrder(t)
  {
    CutAtChild(t.entries, t.children, idx);
    assert t == Inner(t.entries, t.children);
  }

  lemma {:induction false} SearchIsSound(t: Tree, degree: nat, h: nat, root: bool, key: Key)
    requires degree >= 1 && Shape(t, degree, h, root)
    ensures var r := SearchEntry(t, degree, h, root, key);
      r.Some? ==> r.value in InOrder(t) && Compare(key, r.value.key) == 0
    decreases h
  {
    var idx := Position(t.entries, key);
    if idx < |t.entries| && Compare(key, t.entries[idx].key) == 0 {
      OwnEntryInOrder(t, idx);
    } else if t.Inner? {
      SearchIsSound(t.children[idx], degree, h - 1, false, key);
      ChildInOrder(t, idx);
    }
  }

  lemma LeafWithoutKey(es: seq<Entry>, key: Key, kind: Kind)
    requires Sorted(es, kind) && key.Kind() == kind != UnsupportedKind
    requires var p := LowerBound(es, key); p < |es| ==> Compare(key, es[p].key) != 0
    ensures forall e :: e in es ==> e.key != key
  {
    var p := LowerBound(es, key);
    forall i | 0 <= i < |es| ensures es[i].key != key {
      ComparesEqual(es[i].key, key);
      if p <= i {
        CompareFlips(key, es[p].key);
        CompareFlips(key, es[i].key);
        IsTotalOrder(key, es[p].key, es[i].key);
      }
    }
  }

  lemma RightAbove(r: Option<Entry>, below: seq<Entry>, all: seq<Entry>, key: Key)
    requires Right(r, below, key) && forall e :: e in below ==> e in all
    requires forall e :: e in all && e.key == key ==> e in below
    ensures Right(r, all, key)
  {}

  lemma OwnEntryIsRight(t: Tree, idx: nat, key: Key, kind: Kind)
    requires Sorted(InOrder(t), kind) && key.Kind() == kind != UnsupportedKind
    requires idx < |t.entries| && (t.Inner? ==> |t.children| == |t.entries| + 1)
    requires Compare(key, t.entries[idx].key) == 0
    ensures Right(Some(t.entries[idx]), InOrder(t), key)
  {
    OwnEntryInOrder(t, idx);
    ComparesEqual(key, t.entries[idx].key);
  }

  /** In an index of one supported key type, every lookup of that type is right. */
  lemma {:induction false} SearchIsRight(t: Tree, degree: nat, h: nat, root: bool, key: Key, kind: Kind)
    requires degree >= 1 && Shape(t, degree, h, root)
    requires Sorted(InOrder(t), kind) && key.Kind() == kind != UnsupportedKind
    ensures Right(SearchEntry(t, degree, h, root, key), InOrder(t), key)
    decreases h
  {
    NodeSorted(t, kind);
    PositionIsLowerBound(t.entries, key, kind);
    var idx := Position(t.entries, key);
    if idx < |t.entries| && Compare(key, t.entries[idx].key) == 0 {
      OwnEntryIsRight(t, idx, key, kind);
    } else if t.Leaf? {
      LeafWithoutKey(t.entries, key, kind);
    } else {
      SearchDescends(t, key, kind);
      SearchIsRight(t.children[idx], degree, h - 1, false, key, kind);
      RightAbove(SearchEntry(t, degree, h, root, key), InOrder(t.children[idx]), InOrder(t), key);
    }
  }

  /** With two key types even two entries are too many: a lookup of the integer stops at the
      string that was inserted after it. */
  lemma StringHidesInteger(i: int, s: Bytes, u: Value, v: Value, degree: nat)
    requires degree >= 1
    ensures var t := InsertAny(Leaf([Entry(Int64Key(i), [u])]), degree, 0, true, Entry(StringKey(s), [v]));
      SearchEntry(t, degree, 0, true, Int64Key(i)) == Some(Entry(StringKey(s), [v]))
  {
    var one := [Entry(Int64Key(i), [u])];
    assert BinarySearch(one, StringKey(s), 0, 0) == 0;
    assert Position(one, StringKey(s)) == 0;
    var two := [Entry(StringKey(s), [v]), Entry(Int64Key(i), [u])];
    assert InsertAt(one, 0, Entry(StringKey(s), [v])) == two;
    assert BinarySearch(two, Int64Key(i), 0, 0) == 0;
    assert BinarySearch(two, Int64Key(i), 0, 1) == 0;
    assert Position(two, Int64Key(i)) == 0;
  }

  // ---------- A lookup that goes wrong ----------

  // If every probed key compares at least equal, the search ends at the left
  lemma {:induction false} SearchGoesLeft(es: seq<Entry>, key: Key, j: nat)
    requires j <= |es| && forall k :: 0 <= k < |es| ==> Compare(es[k].key, key) >= 0
    ensures BinarySearch(es, key, 0, j) == 0
    decreases j
  {
    if j > 0 {
      SearchGoesLeft(es, key, j / 2);
    }
  }

  ghost predicate Stores(s: seq<Entry>, kind: Kind) {
    exists e :: e in s && e.key.Kind() == kind
  }

  // A lowest stored key of a supported type
  lemma {:induction false} Lowest(s: seq<Entry>, kind: Kind) returns (key: Key)
    requires kind != UnsupportedKind && Stores(s, kind)
    ensures key.Kind() == kind && forall e :: e in s && e.key.Kind() == kind ==> Compare(e.key, key) >= 0
    decreases s
  {
    var n := |s| - 1;
    if Stores(s[..n], kind) {
      key := Lowest(s[..n], kind);
      var last := s[n].key;
      if last.Kind() == kind && Compare(last, key) < 0 {
        LowerStill(s[..n], kind, key, last);
        key := last;
      }
      assert s == s[..n] + [s[n]];
      if last.Kind() == kind {
        ComparesEqual(last, last);
      }
    } else {
      var e :| e in s && e.key.Kind() == kind;
      assert s == s[..n] + [s[n]];
      assert e == s[n];
      key := e.key;
      ComparesEqual(key, key);
    }
  }

  lemma LowerStill(s: seq<Entry>, kind: Kind, key: Key, lower: Key)
    requires kind != UnsupportedKind && key.Kind() == kind == lower.Kind() && Compare(lower, key) < 0
    requires forall e :: e in s && e.key.Kind() == kind ==> Compare(e.key, key) >= 0
    ensures forall e :: e in s && e.key.Kind() == kind ==> Compare(e.key, lower) >= 0
  {
    forall e | e in s && e.key.Kind() == kind ensures Compare(e.key, lower) >= 0 {
      CompareFlips(e.key, key);
      CompareFlips(e.key, lower);
      IsTotalOrder(lower, key, e.key);
    }
  }

  lemma OtherKindsCompareEqual(a: Key, b: Key)
    requires a.Kind() != b.Kind() || b.Kind() == UnsupportedKind
    ensures Compare(a, b) == 0 == Compare(b, a)
  {}

  // A key that every stored one is at least equal to, and that is not that of the root's first entry
  lemma WrongAtRoot(t: Tree, degree: nat, h: nat, key: Key)
    requires degree >= 1 && Shape(t, degree, h, true) && t.entries != []
    requires forall e :: e in InOrder(t) ==> Compare(e.key, key) >= 0
    requires Compare(key, t.entries[0].key) == 0 && t.entries[0].key != key
    ensures !Right(SearchEntry(t, degree, h, true, key), InOrder(t), key)
  {
    forall k | 0 <= k < |t.entries| ensures Compare(t.entries[k].key, key) >= 0 {
      OwnEntryInOrder(t, k);
    }
    SearchGoesLeft(t.entries, key, |t.entries|);
  }

  // All entries have keys of one supported type
  ghost predicate Uniform(s: seq<Entry>, kind: Kind) {
    kind != UnsupportedKind && forall e :: e in s ==> e.key.Kind() == kind
  }

  /** In a tree whose keys are not all of one supported type, some lookup of a key whose type
      is stored goes wrong: that of a lowest key of a type other than that of the root's first
      entry, which the lookup stops at. */
  lemma SomeLookupIsWrong(t: Tree, degree: nat, h: nat) returns (key: Key)
    requires degree >= 1 && Shape(t, degree, h, true) && InOrder(t) != []
    requires forall kind :: !Uniform(InOrder(t), kind)
    ensures Stores(InOrder(t), key.Kind()) && !Right(SearchEntry(t, degree, h, true, key), InOrder(t), key)
  {
    var all, first := InOrder(t), t.entries[0];
    OwnEntryInOrder(t, 0);
    if first.key.UnsupportedKey? {
      key := UnsupportedKey(first.key.tag + 1);
      forall e | e in all ensures Compare(e.key, key) >= 0 {
        OtherKindsCompareEqual(e.key, key);
      }
      assert Stores(all, key.Kind());
    } else {
      assert !Uniform(all, first.key.Kind());
      var other :| other in all && other.key.Kind() != first.key.Kind();
      var kind := other.key.Kind();
      if kind == UnsupportedKind {
        key := other.key;
      } else {
        key := Lowest(all, kind);
      }
      forall e | e in all ensures Compare(e.key, key) >= 0 {
        if e.key.Kind() != kind || kind == UnsupportedKind {
          OtherKindsCompareEqual(e.key, key);
        }
      }
      OtherKindsCompareEqual(first.key, key);
      assert Stores(all, key.Kind());
    }
    WrongAtRoot(t, degree, h, key);
  }
}

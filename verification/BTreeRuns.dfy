/**
 Whole runs of insertions into the B-tree index: for keys of one supported type, against a
 multimap that keeps, for every key, the values inserted under it with the newest first;
 and, for keys of any types, when lookups can be relied on.
 */
module BTreeRuns {
  import opened IndexKeys
  import opened BTreeModel
  import opened BTreeMixed
  import opened BTreeIndex
  import opened Wrappers

  datatype Op = Op(key: Key, value: Value)

  function EntryOf(op: Op): Entry {
    Entry(op.key, [op.value])
  }

  // The sorted list after a run of insertions
  ghost function Run(ops: seq<Op>): seq<Entry> {
    if ops == [] then [] else Inserted(Run(ops[..|ops| - 1]), EntryOf(ops[|ops| - 1]))
  }

  // The tree after a run of insertions, and its height
  ghost function TreeRun(ops: seq<Op>, degree: nat): (r: (Tree, nat))
    requires degree >= 1
    ensures Shape(r.0, degree, r.1, true)
  {
    if ops == [] then (Leaf([]), 0)
    else
      var (t, h) := TreeRun(ops[..|ops| - 1], degree);
      InsertRootCorrect(t, degree, h, EntryOf(ops[|ops| - 1]));
      InsertRoot(t, degree, h, EntryOf(ops[|ops| - 1]))
  }

  ghost function Stored(ops: seq<Op>, degree: nat): seq<Entry>
    requires degree >= 1
  {
    InOrder(TreeRun(ops, degree).0)
  }

  ghost function LookUp(ops: seq<Op>, degree: nat, key: Key): Option<Entry>
    requires degree >= 1
  {
    var (t, h) := TreeRun(ops, degree);
    SearchEntry(t, degree, h, true, key)
  }

  // The multimap: the values inserted under a key, newest first
  ghost function NewestFirst(ops: seq<Op>, key: Key): seq<Value> {
    if ops == [] then []
    else
      var rest := NewestFirst(ops[..|ops| - 1], key);
      if ops[|ops| - 1].key == key then [ops[|ops| - 1].value] + rest else rest
  }

  // The values a sorted list holds under a key, in its order
  ghost function Under(s: seq<Entry>, key: Key): seq<seq<Value>> {
    if s == [] then [] else (if s[0].key == key then [s[0].values] else []) + Under(s[1..], key)
  }

  ghost predicate OfKind(ops: seq<Op>, kind: Kind) {
    kind != UnsupportedKind && forall i :: 0 <= i < |ops| ==> ops[i].key.Kind() == kind
  }

  lemma {:induction false} UnderConcat(s: seq<Entry>, t: seq<Entry>, key: Key)
    ensures Under(s + t, key) == Under(s, key) + Under(t, key)
    decreases s
  {
    if s == [] {
      assert s + t == t;
    } else {
      assert (s + t)[1..] == s[1..] + t;
      UnderConcat(s[1..], t, key);
    }
  }

  lemma {:induction false} UnderNothing(s: seq<Entry>, key: Key)
    requires forall i :: 0 <= i < |s| ==> s[i].key != key
    ensures Under(s, key) == []
    decreases s
  {
    if s != [] {
      UnderNothing(s[1..], key);
    }
  }

  lemma UnderSplice(s: seq<Entry>, e: Entry, t: seq<Entry>, key: Key)
    ensures Under(s + t, key) == Under(s, key) + Under(t, key)
    ensures Under(s + [e] + t, key) == Under(s, key) + (if e.key == key then [e.values] else []) + Under(t, key)
  {
    UnderConcat(s, t, key);
    UnderConcat(s + [e], t, key);
    UnderConcat(s, [e], key);
    assert [e][1..] == [];
  }

  lemma InsertedUnder(s: seq<Entry>, e: Entry, key: Key)
    requires e.key.Kind() != UnsupportedKind
    ensures Under(Inserted(s, e), key) == (if e.key == key then [e.values] else []) + Under(s, key)
  {
    var p := LowerBound(s, e.key);
    if e.key == key {
      NoneBefore(s, key, p);
    }
    UnderPrefixed(s[..p], e, s[p..], key);
    assert s == s[..p] + s[p..];
  }

  lemma UnderPrefixed(a: seq<Entry>, e: Entry, b: seq<Entry>, key: Key)
    requires e.key == key ==> Under(a, key) == []
    ensures Under(a + [e] + b, key) == (if e.key == key then [e.values] else []) + Under(a + b, key)
  {
    UnderSplice(a, e, b, key);
  }

  lemma NoneBefore(s: seq<Entry>, key: Key, p: nat)
    requires p <= |s| && key.Kind() != UnsupportedKind
    requires forall i :: 0 <= i < p ==> Compare(s[i].key, key) < 0
    ensures Under(s[..p], key) == []
  {
    ComparesEqual(key, key);
    UnderNothing(s[..p], key);
  }

  lemma {:induction false} RunSorted(ops: seq<Op>, kind: Kind)
    requires OfKind(ops, kind)
    ensures Sorted(Run(ops), kind) && |Run(ops)| == |ops|
    decreases ops
  {
    if ops != [] {
      var last := ops[|ops| - 1];
      RunSorted(ops[..|ops| - 1], kind);
      InsertedStaysSorted(Run(ops[..|ops| - 1]), EntryOf(last), kind);
    }
  }

  ghost function Singletons(vs: seq<Value>): (r: seq<seq<Value>>)
    ensures |r| == |vs|
    ensures forall i :: 0 <= i < |vs| ==> r[i] == [vs[i]]
  {
    seq(|vs|, i requires 0 <= i < |vs| => [vs[i]])
  }

  /** Under every key the index holds one entry per insertion, the newest first. */
  lemma {:induction false} RunIsMultimap(ops: seq<Op>, kind: Kind, key: Key)
    requires OfKind(ops, kind)
    ensures Under(Run(ops), key) == Singletons(NewestFirst(ops, key))
    decreases ops
  {
    if ops != [] {
      var last := ops[|ops| - 1];
      RunIsMultimap(ops[..|ops| - 1], kind, key);
      InsertedUnder(Run(ops[..|ops| - 1]), EntryOf(last), key);
    }
  }

  lemma {:induction false} UnderMembers(s: seq<Entry>, key: Key)
    ensures forall e :: e in s && e.key == key ==> e.values in Under(s, key)
    ensures Under(s, key) != [] ==> exists e :: e in s && e.key == key
    decreases s
  {
    if s != [] {
      UnderMembers(s[1..], key);
      assert s == [s[0]] + s[1..];
      if s[0].key != key && Under(s, key) != [] {
        var e :| e in s[1..] && e.key == key;
        assert e in s;
      } else if s[0].key == key {
        assert s[0] in s;
      }
    }
  }

  /** What a search answers after a run of insertions, read off the multimap: nothing
      exactly when the key was never inserted, else one of the values inserted under it. */
  lemma SearchAnswersMultimap(ops: seq<Op>, kind: Kind, key: Key, r: Option<seq<Value>>)
    requires OfKind(ops, kind)
    requires r.None? <==> forall e :: e in Run(ops) ==> e.key != key
    requires r.Some? ==> Entry(key, r.value) in Run(ops)
    ensures r.None? <==> NewestFirst(ops, key) == []
    ensures r.Some? ==> |r.value| == 1 && r.value[0] in NewestFirst(ops, key)
    ensures |NewestFirst(ops, key)| == 1 ==> r == Some(NewestFirst(ops, key))
  {
    RunIsMultimap(ops, kind, key);
    UnderMembers(Run(ops), key);
    var vs := NewestFirst(ops, key);
    if r.Some? {
      assert r.value in Singletons(vs);
      var i :| 0 <= i < |vs| && Singletons(vs)[i] == r.value;
      assert r.value == [vs[i]];
      if |vs| == 1 {
        assert vs == [vs[0]];
      }
    }
  }

  /** For keys of one supported type the tree holds, in order, the sorted list. */
  lemma {:induction false} TreeHoldsRun(ops: seq<Op>, degree: nat, kind: Kind)
    requires degree >= 1 && OfKind(ops, kind)
    ensures Stored(ops, degree) == Run(ops)
    decreases ops
  {
    if ops != [] {
      var before := ops[..|ops| - 1];
      var (t, h) := TreeRun(before, degree);
      TreeHoldsRun(before, degree, kind);
      RunSorted(before, kind);
      InsertRootRefinesList(t, degree, h, EntryOf(ops[|ops| - 1]), kind);
    }
  }

  /** Strings then stand in the order of their bytes, and numbers in ascending order. */
  lemma StoredAscends(ops: seq<Op>, degree: nat, kind: Kind)
    requires degree >= 1 && OfKind(ops, kind)
    ensures Ascending(Stored(ops, degree), kind)
  {
    TreeHoldsRun(ops, degree, kind);
    RunSorted(ops, kind);
    SortedIsAscending(Run(ops), kind);
  }

  ghost predicate Holding(index: BTreeIndex, ops: seq<Op>)
    requires index.degree >= 1
    reads index, Footprint(index.nodes)
  {
    index.Model() == Some(TreeRun(ops, index.degree))
  }

  method InsertNext(index: BTreeIndex, ops: seq<Op>, i: nat)
    requires index.degree >= 1 && i < |ops| && Holding(index, ops[..i])
    modifies index, Footprint(index.nodes)
    ensures Holding(index, ops[..i + 1])
    ensures forall n :: n in Footprint(index.nodes) ==> n in old(Footprint(index.nodes)) || fresh(n)
  {
    assert ops[..i + 1][..i] == ops[..i];
    index.Insert(ops[i].key, ops[i].value);
  }

  /** Every index reached by a run of insertions, of keys of any types, is valid and holds the
      tree of that run; keys of one supported type are ascending in it. */
  method BuildIndex(degree: nat, ops: seq<Op>) returns (index: BTreeIndex)
    requires degree >= 1
    ensures fresh(index) && index.degree == degree && Holding(index, ops)
    ensures forall kind :: OfKind(ops, kind) ==> Ascending(index.Contents(), kind)
  {
    index := new BTreeIndex(degree);
    var i := 0;
    while i < |ops|
      invariant 0 <= i <= |ops|
      invariant fresh(index) && fresh(Footprint(index.nodes)) && index.degree == degree
      invariant Holding(index, ops[..i])
    {
      InsertNext(index, ops, i);
      i := i + 1;
    }
    assert ops[..|ops|] == ops;
    forall kind | OfKind(ops, kind) ensures Ascending(Stored(ops, degree), kind) {
      StoredAscends(ops, degree, kind);
    }
  }

  // What a lookup answers after a run of insertions of keys of its own type
  ghost predicate AnswersMultimap(ops: seq<Op>, key: Key, r: Option<seq<Value>>) {
    && (r.None? <==> NewestFirst(ops, key) == [])
    && (r.Some? ==> |r.value| == 1 && r.value[0] in NewestFirst(ops, key))
    && (|NewestFirst(ops, key)| == 1 ==> r == Some(NewestFirst(ops, key)))
  }

  lemma LookUpAnswersMultimap(degree: nat, ops: seq<Op>, key: Key)
    requires degree >= 1 && OfKind(ops, key.Kind())
    ensures AnswersMultimap(ops, key, ValuesOf(LookUp(ops, degree, key)))
  {
    var (t, h) := TreeRun(ops, degree);
    TreeHoldsRun(ops, degree, key.Kind());
    RunSorted(ops, key.Kind());
    SortedIsAscending(Run(ops), key.Kind());
    SearchOrdered(t, degree, h, key);
    SearchAnswersMultimap(ops, key.Kind(), key, ValuesOf(LookUp(ops, degree, key)));
  }

  /** Insert a whole run, then search. */
  method SearchAfter(degree: nat, ops: seq<Op>, key: Key) returns (r: Option<seq<Value>>)
    requires degree >= 1
    ensures r == ValuesOf(LookUp(ops, degree, key))
    ensures OfKind(ops, key.Kind()) ==> AnswersMultimap(ops, key, r)
  {
    var index := BuildIndex(degree, ops);
    ghost var visited;
    r, visited := index.Search(key);
    if OfKind(ops, key.Kind()) {
      LookUpAnswersMultimap(degree, ops, key);
    }
  }

  // ---------- Keys of any types ----------

  ghost function Entries(ops: seq<Op>): (es: seq<Entry>)
    ensures |es| == |ops| && forall i :: 0 <= i < |ops| ==> es[i] == EntryOf(ops[i])
  {
    seq(|ops|, i requires 0 <= i < |ops| => EntryOf(ops[i]))
  }

  lemma EntriesExtend(ops: seq<Op>)
    requires ops != []
    ensures Entries(ops) == Entries(ops[..|ops| - 1]) + [EntryOf(ops[|ops| - 1])]
  {}

  /** The tree holds one entry for every insertion, whatever the keys. */
  lemma {:induction false} TreeHoldsAll(ops: seq<Op>, degree: nat)
    requires degree >= 1
    ensures multiset(Stored(ops, degree)) == multiset(Entries(ops))
    decreases ops
  {
    if ops != [] {
      var n := |ops| - 1;
      var (t, h) := TreeRun(ops[..n], degree);
      TreeHoldsAll(ops[..n], degree);
      InsertRootCorrect(t, degree, h, EntryOf(ops[n]));
      EntriesExtend(ops);
    }
  }

  lemma StoredExactly(ops: seq<Op>, degree: nat)
    requires degree >= 1
    ensures forall e :: e in Stored(ops, degree) <==> exists i :: 0 <= i < |ops| && EntryOf(ops[i]) == e
  {
    TreeHoldsAll(ops, degree);
    assert forall e :: e in Stored(ops, degree) <==> e in multiset(Stored(ops, degree));
    assert forall e :: e in Entries(ops) <==> e in multiset(Entries(ops));
    forall e ensures e in Entries(ops) <==> exists i :: 0 <= i < |ops| && EntryOf(ops[i]) == e {
      if i :| 0 <= i < |ops| && EntryOf(ops[i]) == e {
        assert Entries(ops)[i] == e;
      }
    }
  }

  // Some insertion was of a key of this type
  ghost predicate Inserts(ops: seq<Op>, kind: Kind) {
    exists i :: 0 <= i < |ops| && ops[i].key.Kind() == kind
  }

  // Every lookup of a key whose type was inserted is right
  ghost predicate LookupsAreRight(ops: seq<Op>, degree: nat)
    requires degree >= 1
  {
    forall key: Key :: Inserts(ops, key.Kind()) ==> Right(LookUp(ops, degree, key), Stored(ops, degree), key)
  }

  /** After any run of insertions, lookups of keys of the inserted types are all right if and
      only if all inserted keys are of one supported type. */
  lemma LookupsAreRightExactly(ops: seq<Op>, degree: nat)
    requires degree >= 1 && ops != []
    ensures LookupsAreRight(ops, degree) <==> exists kind :: OfKind(ops, kind)
  {
    var (t, h) := TreeRun(ops, degree);
    StoredExactly(ops, degree);
    if kind :| OfKind(ops, kind) {
      TreeHoldsRun(ops, degree, kind);
      RunSorted(ops, kind);
      forall key: Key | Inserts(ops, key.Kind()) ensures Right(LookUp(ops, degree, key), Stored(ops, degree), key) {
        SearchIsRight(t, degree, h, true, key, kind);
      }
    } else {
      MixedRunIsNotUniform(ops, degree);
      var key := SomeLookupIsWrong(t, degree, h);
      var e :| e in Stored(ops, degree) && e.key.Kind() == key.Kind();
      assert Inserts(ops, key.Kind());
    }
  }

  lemma MixedRunIsNotUniform(ops: seq<Op>, degree: nat)
    requires degree >= 1 && ops != [] && forall kind :: !OfKind(ops, kind)
    ensures Stored(ops, degree) != [] && forall kind :: !Uniform(Stored(ops, degree), kind)
  {
    StoredExactly(ops, degree);
    assert EntryOf(ops[0]) in Stored(ops, degree);
    forall kind ensures !Uniform(Stored(ops, degree), kind) {
      assert !OfKind(ops, kind);
      if kind != UnsupportedKind {
        var i :| 0 <= i < |ops| && ops[i].key.Kind() != kind;
        assert EntryOf(ops[i]) in Stored(ops, degree);
      }
    }
  }
}

/**
 Insertion exactly as written. Splitting a full node truncates it to degree-1 keys and
 then reads the key at index degree-1, which is out of range: the call panics, with the
 root already truncated and the size not yet counted. The lock is released on the way
 out, so a caller that recovers can go on using the index. Its root therefore stays a
 leaf for ever, and the code of inner nodes is never reached.
 */
module BTreeAsWritten {
  import opened Arithmetic
  import opened IndexKeys
  import opened BTreeModel
  import opened BTreeMixed
  import opened BTreeIndex
  import opened BTreeRuns
  import opened Wrappers

  class IndexAsWritten {
    const degree: nat
    var root: Node
    var size: int

    ghost predicate Valid()
      reads this, root
    {
      && degree >= 1
      && root.leaf && root.capacity == 2 * degree
      && |root.keys| == |root.values| <= 2 * degree
    }

    ghost function Contents(): seq<Entry>
      reads this, root
    {
      if |root.keys| == |root.values| then Zip(root.keys, root.values) else []
    }

    constructor (degree: nat)
      requires degree >= 1
      ensures Valid() && Contents() == [] && size == 0 && this.degree == degree
      ensures fresh(root)
    {
      this.degree := degree;
      var node := new Node(degree, true);
      root, size := node, 0;
    }

    method Insert(key: Key, value: Value) returns (panicked: bool)
      requires Valid()
      modifies this, root
      ensures Valid() && root == old(root)
      ensures panicked <==> |old(Contents())| == 2 * degree
      ensures panicked ==> Contents() == old(Contents())[..degree - 1] && size == old(size)
      ensures !panicked ==> size == old(size) + 1
      ensures !panicked ==>
        Contents() == InsertAt(old(Contents()), Position(old(Contents()), key), Entry(key, [value]))
    {
      var node := root;
      ghost var es := Contents();
      if node.IsFull() {
        var mid := degree - 1;
        node.keys := node.keys[..mid];
        node.values := node.values[..mid];
        assert Contents() == es[..mid];
        return mid >= |node.keys|;
      }
      var pos := InsertPosition(node.keys, key, es);
      ZipInsert(node.keys, node.values, pos, key, [value]);
      node.keys := InsertAt(node.keys, pos, key);
      node.values := InsertAt(node.values, pos, [value]);
      size := size + 1;
      return false;
    }
  }

  // ---------- Runs in which the caller recovers from every panic ----------

  ghost function AfterCall(s: seq<Entry>, degree: nat, e: Entry): seq<Entry>
    requires degree >= 1 && |s| <= 2 * degree
  {
    if |s| == 2 * degree then s[..degree - 1] else InsertAt(s, Position(s, e.key), e)
  }

  ghost function RunAsWritten(ops: seq<Op>, degree: nat): (s: seq<Entry>)
    requires degree >= 1
    ensures |s| <= 2 * degree
  {
    if ops == [] then []
    else AfterCall(RunAsWritten(ops[..|ops| - 1], degree), degree, EntryOf(ops[|ops| - 1]))
  }

  // Whether call number |ops|, the last of the run, panics
  ghost predicate LastPanics(ops: seq<Op>, degree: nat)
    requires degree >= 1 && ops != []
  {
    |RunAsWritten(ops[..|ops| - 1], degree)| == 2 * degree
  }

  // How many entries are left after n calls
  function Left(n: nat, degree: nat): nat
    requires degree >= 1
  {
    if n <= 2 * degree then n else degree - 1 + (n - 2 * degree - 1) % (degree + 2)
  }

  lemma NextLeft(n: nat, degree: nat)
    requires degree >= 1
    ensures Left(n + 1, degree) == if Left(n, degree) == 2 * degree then degree - 1 else Left(n, degree) + 1
  {
    if n > 2 * degree {
      NextDivision(n - 2 * degree - 1, degree + 2);
    }
  }

  lemma {:induction false} RunLeaves(ops: seq<Op>, degree: nat)
    requires degree >= 1
    ensures |RunAsWritten(ops, degree)| == Left(|ops|, degree)
    decreases ops
  {
    if ops != [] {
      RunLeaves(ops[..|ops| - 1], degree);
      NextLeft(|ops| - 1, degree);
    }
  }

  /** The calls that panic are number 2*degree+1 and then every (degree+2)-th one. */
  lemma PanicsExactly(ops: seq<Op>, degree: nat)
    requires degree >= 1 && ops != []
    ensures LastPanics(ops, degree) <==> |ops| > 2 * degree && (|ops| - 2 * degree - 1) % (degree + 2) == 0
  {
    RunLeaves(ops[..|ops| - 1], degree);
    FullExactly(|ops| - 1, degree);
  }

  lemma FullExactly(n: nat, degree: nat)
    requires degree >= 1
    ensures Left(n, degree) == 2 * degree <==> n >= 2 * degree && (n - 2 * degree) % (degree + 2) == 0
  {
    if n > 2 * degree {
      NextDivision(n - 2 * degree - 1, degree + 2);
    }
  }

  /** The index as written holds what was inserted if and only if it was given at most
      2*degree entries. */
  lemma {:induction false} CorrectExactlyWhileOneNodeSuffices(ops: seq<Op>, degree: nat, kind: Kind)
    requires degree >= 1 && OfKind(ops, kind)
    ensures RunAsWritten(ops, degree) == Run(ops) <==> |ops| <= 2 * degree
    decreases ops
  {
    RunSorted(ops, kind);
    if 0 < |ops| <= 2 * degree {
      CorrectExactlyWhileOneNodeSuffices(ops[..|ops| - 1], degree, kind);
      RunSorted(ops[..|ops| - 1], kind);
      PositionIsLowerBound(Run(ops[..|ops| - 1]), ops[|ops| - 1].key, kind);
    }
  }

  /** With degree 2 the fifth insertion panics, and of the four entries stored before it
      only the one with the smallest key is left. */
  lemma FifthInsertionLosesThree(ops: seq<Op>, kind: Kind)
    requires |ops| == 5 && OfKind(ops, kind)
    ensures LastPanics(ops, 2)
    ensures RunAsWritten(ops, 2) == Run(ops[..4])[..1]
  {
    PanicsExactly(ops, 2);
    CorrectExactlyWhileOneNodeSuffices(ops[..4], 2, kind);
  }

  // The entries of a valid index
  ghost function ModelOf(index: IndexAsWritten): Option<seq<Entry>>
    reads index, index.root
  {
    if index.Valid() then Some(index.Contents()) else None
  }

  // Whether call number k, counted from zero, panics
  ghost predicate PanicsAt(k: nat, degree: nat) {
    k >= 2 * degree && (k - 2 * degree) % (degree + 2) == 0
  }

  lemma NextCall(ops: seq<Op>, i: nat, degree: nat)
    requires degree >= 1 && i < |ops|
    ensures RunAsWritten(ops[..i + 1], degree)
         == AfterCall(RunAsWritten(ops[..i], degree), degree, EntryOf(ops[i]))
    ensures |RunAsWritten(ops[..i], degree)| == 2 * degree <==> PanicsAt(i, degree)
  {
    assert ops[..i + 1][..i] == ops[..i];
    PanicsExactly(ops[..i + 1], degree);
  }

  method CallNext(index: IndexAsWritten, ops: seq<Op>, i: nat) returns (panicked: bool)
    requires index.degree >= 1 && i < |ops|
    requires ModelOf(index) == Some(RunAsWritten(ops[..i], index.degree))
    modifies index, index.root
    ensures ModelOf(index) == Some(RunAsWritten(ops[..i + 1], index.degree)) && index.root == old(index.root)
    ensures panicked <==> PanicsAt(i, index.degree)
  {
    NextCall(ops, i, index.degree);
    panicked := index.Insert(ops[i].key, ops[i].value);
  }

  /** A run of calls on the index as written: it ends with the entries of RunAsWritten, and
      panics at the calls that PanicsExactly names. */
  method ReplayAsWritten(degree: nat, ops: seq<Op>) returns (index: IndexAsWritten, panics: seq<bool>)
    requires degree >= 1
    ensures fresh(index) && index.degree == degree
    ensures ModelOf(index) == Some(RunAsWritten(ops, degree))
    ensures |panics| == |ops| && forall k :: 0 <= k < |ops| ==> (panics[k] <==> PanicsAt(k, degree))
  {
    index := new IndexAsWritten(degree);
    panics := [];
    var i := 0;
    assert ops[..0] == [];
    while i < |ops|
      invariant 0 <= i <= |ops| && |panics| == i
      invariant fresh(index) && fresh(index.root) && index.degree == degree
      invariant ModelOf(index) == Some(RunAsWritten(ops[..i], degree))
      invariant forall k :: 0 <= k < i ==> (panics[k] <==> PanicsAt(k, degree))
    {
      var panicked := CallNext(index, ops, i);
      panics := panics + [panicked];
      i := i + 1;
    }
    assert ops[..|ops|] == ops;
  }
}

/**
 The B-tree as a value: shape, in-order contents, splitting, insertion and the height
 bound. The heap nodes of module BTreeIndex mirror these values.

 A node is full when it holds 2*degree entries, the capacity its key slice is created
 with. Splitting a full child lifts its entry number degree-1.
 */
module BTreeModel {
  import opened IndexKeys

  type Value(==)

  datatype Entry = Entry(key: Key, values: seq<Value>)

  datatype Tree =
    | Leaf(entries: seq<Entry>)
    | Inner(entries: seq<Entry>, children: seq<Tree>)

  /** All leaves at depth h, one more child than entries, and degree-1 to 2*degree entries
      in every node but the root; an inner root has at least one entry. */
  ghost predicate Shape(t: Tree, degree: nat, h: nat, root: bool)
    decreases h
  {
    && |t.entries| <= 2 * degree
    && (!root ==> degree - 1 <= |t.entries|)
    && match t
       case Leaf(_) => h == 0
       case Inner(es, cs) =>
         && h > 0
         && |cs| == |es| + 1
         && (root ==> 1 <= |es|)
         && forall i :: 0 <= i < |cs| ==> Shape(cs[i], degree, h - 1, false)
  }

  ghost function InOrder(t: Tree): seq<Entry>
    decreases t
  {
    match t
    case Leaf(es) => es
    case Inner(es, cs) =>
      if |cs| == |es| + 1 then InOrder(cs[0]) + After(es, cs[1..]) else es
  }

  // Each separator followed by the subtree to its right
  ghost function After(es: seq<Entry>, cs: seq<Tree>): seq<Entry>
    requires |es| == |cs|
    decreases cs
  {
    if es == [] then [] else [es[0]] + InOrder(cs[0]) + After(es[1..], cs[1..])
  }

  // Each subtree followed by the separator to its right
  ghost function Before(cs: seq<Tree>, es: seq<Entry>): seq<Entry>
    requires |es| == |cs|
    decreases cs
  {
    if es == [] then [] else InOrder(cs[0]) + [es[0]] + Before(cs[1..], es[1..])
  }

  lemma {:induction false} BeforeEndsWithSeparator(cs: seq<Tree>, es: seq<Entry>)
    requires |es| == |cs| > 0
    ensures |Before(cs, es)| > 0
    ensures Before(cs, es)[|Before(cs, es)| - 1] == es[|es| - 1]
    decreases cs
  {
    if |es| > 1 {
      BeforeEndsWithSeparator(cs[1..], es[1..]);
    }
  }

  // A node's contents, cut at child number pos
  lemma {:induction false} CutAtChild(es: seq<Entry>, cs: seq<Tree>, pos: nat)
    requires |cs| == |es| + 1 && pos <= |es|
    ensures InOrder(cs[0]) + After(es, cs[1..])
         == Before(cs[..pos], es[..pos]) + InOrder(cs[pos]) + After(es[pos..], cs[pos + 1..])
    decreases pos
  {
    if pos == 0 {
      assert es[0..] == es;
    } else {
      var b, m, a := Before(cs[1..pos], es[1..pos]), InOrder(cs[pos]), After(es[pos..], cs[pos + 1..]);
      assert InOrder(cs[1]) + After(es[1..], cs[2..]) == b + m + a by {
        CutAtChild(es[1..], cs[1..], pos - 1);
        assert cs[1..][..pos - 1] == cs[1..pos] && es[1..][..pos - 1] == es[1..pos];
        assert es[1..][pos - 1..] == es[pos..] && cs[1..][pos..] == cs[pos + 1..];
        assert cs[1..][1..] == cs[2..];
      }
      AfterUnfolds(es, cs);
      BeforeUnfolds(cs, es, pos);
      ShiftCut(InOrder(cs[0]), es[0], InOrder(cs[1]), After(es[1..], cs[2..]), b, m, a);
    }
  }

  lemma AfterUnfolds(es: seq<Entry>, cs: seq<Tree>)
    requires |cs| == |es| + 1 && es != []
    ensures After(es, cs[1..]) == [es[0]] + InOrder(cs[1]) + After(es[1..], cs[2..])
  {
    assert cs[1..][1..] == cs[2..];
  }

  lemma BeforeUnfolds(cs: seq<Tree>, es: seq<Entry>, pos: nat)
    requires |cs| == |es| + 1 && 1 <= pos <= |es|
    ensures Before(cs[..pos], es[..pos]) == InOrder(cs[0]) + [es[0]] + Before(cs[1..pos], es[1..pos])
  {
    assert cs[..pos][1..] == cs[1..pos] && es[..pos][1..] == es[1..pos];
  }

  lemma ShiftCut<T>(f: seq<T>, e: T, s: seq<T>, r: seq<T>, b: seq<T>, m: seq<T>, a: seq<T>)
    requires s + r == b + m + a
    ensures f + ([e] + s + r) == (f + [e] + b) + m + a
  {
    assert f + ([e] + s + r) == f + [e] + (s + r);
    assert f + [e] + (b + m + a) == (f + [e] + b) + m + a;
  }

  // ---------- Sorted runs of entries ----------

  ghost predicate Sorted(s: seq<Entry>, kind: Kind) {
    && (forall i :: 0 <= i < |s| ==> s[i].key.Kind() == kind)
    && (forall i, j :: 0 <= i <= j < |s| ==> Compare(s[i].key, s[j].key) <= 0)
  }

  /** Keys of one type, ascending: strings in the order of their bytes, numbers by size. */
  ghost predicate Ascending(s: seq<Entry>, kind: Kind) {
    && (forall i :: 0 <= i < |s| ==> s[i].key.Kind() == kind)
    && (forall i, j :: 0 <= i <= j < |s| ==> s[i].key == s[j].key || KeyBelow(s[i].key, s[j].key))
  }

  lemma SortedIsAscending(s: seq<Entry>, kind: Kind)
    requires kind != UnsupportedKind
    ensures Sorted(s, kind) <==> Ascending(s, kind)
  {
    if forall i :: 0 <= i < |s| ==> s[i].key.Kind() == kind {
      forall i, j | 0 <= i <= j < |s|
        ensures Compare(s[i].key, s[j].key) <= 0 <==> s[i].key == s[j].key || KeyBelow(s[i].key, s[j].key)
      {
        ComparesExactly(s[i].key, s[j].key);
        ComparesEqual(s[i].key, s[j].key);
      }
    }
  }

  // The first index whose key is not below the given one
  function LowerBound(s: seq<Entry>, key: Key): (p: nat)
    ensures p <= |s|
    ensures forall i :: 0 <= i < p ==> Compare(s[i].key, key) < 0
    ensures p < |s| ==> Compare(s[p].key, key) >= 0
  {
    if s == [] || Compare(s[0].key, key) >= 0 then 0 else 1 + LowerBound(s[1..], key)
  }

  lemma LowerBoundUnique(s: seq<Entry>, key: Key, p: nat)
    requires p <= |s|
    requires forall i :: 0 <= i < p ==> Compare(s[i].key, key) < 0
    requires p < |s| ==> Compare(s[p].key, key) >= 0
    ensures LowerBound(s, key) == p
  {
    var q := LowerBound(s, key);
  }

  function InsertAt<T>(s: seq<T>, p: nat, x: T): seq<T>
    requires p <= |s|
  {
    s[..p] + [x] + s[p..]
  }

  // The reference operation: insert before the first key that is not smaller
  function Inserted(s: seq<Entry>, e: Entry): seq<Entry> {
    InsertAt(s, LowerBound(s, e.key), e)
  }

  lemma InsertedStaysSorted(s: seq<Entry>, e: Entry, kind: Kind)
    requires Sorted(s, kind) && e.key.Kind() == kind != UnsupportedKind
    ensures Sorted(Inserted(s, e), kind)
  {
    var p := LowerBound(s, e.key);
    var r := Inserted(s, e);
    forall i, j | 0 <= i <= j < |r| ensures Compare(r[i].key, r[j].key) <= 0 {
      if i == j {
        IsTotalOrder(r[i].key, r[i].key, r[i].key);
      } else if i == p {
        IsTotalOrder(s[p].key, e.key, e.key);
        IsTotalOrder(e.key, s[p].key, s[j - 1].key);
      } else if j == p {
        IsTotalOrder(s[i].key, e.key, e.key);
      }
    }
  }

  // What the keys on the two sides of position p must look like when descending for key
  ghost predicate Brackets(es: seq<Entry>, key: Key, p: nat)
    requires p <= |es|
  {
    && (p > 0 ==> Compare(es[p - 1].key, key) < 0)
    && (p < |es| ==> Compare(es[p].key, key) >= 0)
  }

  lemma SortedParts(a: seq<Entry>, b: seq<Entry>, c: seq<Entry>, kind: Kind)
    requires Sorted(a + b + c, kind)
    ensures Sorted(a, kind) && Sorted(b, kind) && Sorted(c, kind)
  {
    var s := a + b + c;
    assert s[..|a|] == a && s[|a|..|a| + |b|] == b && s[|a| + |b|..] == c;
  }

  ghost predicate AllBelow(s: seq<Entry>, key: Key) {
    forall i :: 0 <= i < |s| ==> Compare(s[i].key, key) < 0
  }

  ghost predicate NoneBelow(s: seq<Entry>, key: Key) {
    forall i :: 0 <= i < |s| ==> Compare(s[i].key, key) >= 0
  }

  lemma SortedAllBelow(s: seq<Entry>, key: Key, kind: Kind)
    requires Sorted(s, kind) && key.Kind() == kind != UnsupportedKind
    requires s != [] ==> Compare(s[|s| - 1].key, key) < 0
    ensures AllBelow(s, key)
  {
    forall i | 0 <= i < |s| ensures Compare(s[i].key, key) < 0 {
      IsTotalOrder(s[i].key, s[|s| - 1].key, key);
    }
  }

  lemma SortedNoneBelow(s: seq<Entry>, key: Key, kind: Kind)
    requires Sorted(s, kind) && key.Kind() == kind != UnsupportedKind
    requires s != [] ==> Compare(s[0].key, key) >= 0
    ensures NoneBelow(s, key)
  {
    forall i | 0 <= i < |s| ensures Compare(s[i].key, key) >= 0 {
      CompareFlips(s[0].key, key);
      CompareFlips(s[i].key, key);
      IsTotalOrder(key, s[0].key, s[i].key);
    }
  }

  lemma LowerBoundInMiddle(a: seq<Entry>, b: seq<Entry>, c: seq<Entry>, key: Key)
    requires AllBelow(a, key) && NoneBelow(c, key)
    ensures LowerBound(a + b + c, key) == |a| + LowerBound(b, key)
  {
    var s, p := a + b + c, LowerBound(b, key);
    var q := |a| + p;
    forall i | 0 <= i < q ensures Compare(s[i].key, key) < 0 {
      assert s[i] == if i < |a| then a[i] else b[i - |a|];
    }
    assert q < |s| ==> s[q] == if p < |b| then b[p] else c[0];
    LowerBoundUnique(s, key, q);
  }

  // Inserting into a sorted run whose lower bound lies in its middle part
  lemma InsertedInMiddle(a: seq<Entry>, b: seq<Entry>, c: seq<Entry>, e: Entry, kind: Kind)
    requires Sorted(a + b + c, kind) && e.key.Kind() == kind != UnsupportedKind
    requires a != [] ==> Compare(a[|a| - 1].key, e.key) < 0
    requires c != [] ==> Compare(c[0].key, e.key) >= 0
    ensures Inserted(a + b + c, e) == a + Inserted(b, e) + c
  {
    assert AllBelow(a, e.key) && NoneBelow(c, e.key) by {
      SortedParts(a, b, c, kind);
      SortedAllBelow(a, e.key, kind);
      SortedNoneBelow(c, e.key, kind);
    }
    InsertedBetween(a, b, c, e);
  }

  lemma InsertedBetween(a: seq<Entry>, b: seq<Entry>, c: seq<Entry>, e: Entry)
    requires AllBelow(a, e.key) && NoneBelow(c, e.key)
    ensures Inserted(a + b + c, e) == a + Inserted(b, e) + c
  {
    LowerBoundInMiddle(a, b, c, e.key);
    InsertAtMiddle(a, b, c, LowerBound(b, e.key), e);
  }

  lemma InsertAtMiddle<T>(a: seq<T>, b: seq<T>, c: seq<T>, p: nat, x: T)
    requires p <= |b|
    ensures InsertAt(a + b + c, |a| + p, x) == a + InsertAt(b, p, x) + c
  {
    var s := a + b + c;
    assert s[..|a| + p] == a + b[..p] && s[|a| + p..] == b[p..] + c;
  }

  // ---------- Splitting ----------

  ghost predicate Full(t: Tree, degree: nat) {
    |t.entries| == 2 * degree
  }

  ghost function LeftHalf(t: Tree, degree: nat): Tree
    requires degree >= 1 && Full(t, degree)
  {
    if t.Leaf? then Leaf(t.entries[..degree - 1])
    else if degree <= |t.children| then Inner(t.entries[..degree - 1], t.children[..degree]) else t
  }

  ghost function RightHalf(t: Tree, degree: nat): Tree
    requires degree >= 1 && Full(t, degree)
  {
    if t.Leaf? then Leaf(t.entries[degree..])
    else if degree <= |t.children| then Inner(t.entries[degree..], t.children[degree..]) else t
  }

  // The full child at pos replaced by its halves around the lifted entry
  ghost function SplitChild(t: Tree, pos: nat, degree: nat): Tree
    requires degree >= 1 && t.Inner? && pos <= |t.entries| && pos < |t.children| && Full(t.children[pos], degree)
  {
    var child := t.children[pos];
    Inner(InsertAt(t.entries, pos, child.entries[degree - 1]),
          t.children[..pos] + [LeftHalf(child, degree), RightHalf(child, degree)] + t.children[pos + 1..])
  }

  lemma HalvesShape(t: Tree, degree: nat, h: nat, root: bool)
    requires degree >= 1 && Shape(t, degree, h, root) && Full(t, degree)
    ensures Shape(LeftHalf(t, degree), degree, h, false) && !Full(LeftHalf(t, degree), degree)
    ensures Shape(RightHalf(t, degree), degree, h, false) && !Full(RightHalf(t, degree), degree)
  {}

  lemma HalvesContents(t: Tree, degree: nat, h: nat, root: bool)
    requires degree >= 1 && Shape(t, degree, h, root) && Full(t, degree)
    ensures InOrder(t)
         == InOrder(LeftHalf(t, degree)) + [t.entries[degree - 1]] + InOrder(RightHalf(t, degree))
  {
    var es, m := t.entries, degree - 1;
    if t.Leaf? {
      assert es == es[..m] + [es[m]] + es[m + 1..];
    } else {
      InnerHalves(es, t.children, m);
    }
  }

  lemma InnerHalves(es: seq<Entry>, cs: seq<Tree>, m: nat)
    requires |cs| == |es| + 1 && m < |es|
    ensures InOrder(Inner(es, cs))
         == InOrder(Inner(es[..m], cs[..m + 1])) + [es[m]] + InOrder(Inner(es[m + 1..], cs[m + 1..]))
  {
    CutAtChild(es, cs, m);
    LeftInner(es, cs, m);
    RightInner(es, cs, m);
    var b, l, r := Before(cs[..m], es[..m]), InOrder(cs[m]), InOrder(Inner(es[m + 1..], cs[m + 1..]));
    assert b + l + ([es[m]] + r) == b + l + [es[m]] + r;
  }

  lemma LeftInner(es: seq<Entry>, cs: seq<Tree>, m: nat)
    requires |cs| == |es| + 1 && m < |es|
    ensures InOrder(Inner(es[..m], cs[..m + 1])) == Before(cs[..m], es[..m]) + InOrder(cs[m])
  {
    CutAtChild(es[..m], cs[..m + 1], m);
    assert cs[..m + 1][..m] == cs[..m] && es[..m][..m] == es[..m];
    assert After(es[..m][m..], cs[..m + 1][m + 1..]) == [];
  }

  lemma RightInner(es: seq<Entry>, cs: seq<Tree>, m: nat)
    requires |cs| == |es| + 1 && m < |es|
    ensures After(es[m..], cs[m + 1..]) == [es[m]] + InOrder(Inner(es[m + 1..], cs[m + 1..]))
  {
    assert es[m..][1..] == es[m + 1..] && cs[m + 1..][1..] == cs[m + 2..];
    var a, b := InOrder(cs[m + 1]), After(es[m + 1..], cs[m + 2..]);
    assert [es[m]] + a + b == [es[m]] + (a + b);
  }

  /** A split keeps the shape of the parent and moves no entry in the in-order sequence. */
  lemma SplitChildCorrect(t: Tree, pos: nat, degree: nat, h: nat, root: bool)
    requires degree >= 1 && Shape(t, degree, h, root) && t.Inner? && !Full(t, degree)
    requires pos < |t.children| && Full(t.children[pos], degree)
    ensures Shape(SplitChild(t, pos, degree), degree, h, root)
    ensures InOrder(SplitChild(t, pos, degree)) == InOrder(t)
  {
    HalvesShape(t.children[pos], degree, h - 1, false);
    SplitContents(t.entries, t.children, pos, degree, h - 1, false);
  }

  /** Of the 2*degree entries of a full child degree-1 stay, one is lifted, and degree go to
      the new node. */
  lemma SplitSizes(t: Tree, pos: nat, degree: nat, h: nat, root: bool)
    requires degree >= 1 && Shape(t, degree, h, root) && t.Inner?
    requires pos < |t.children| && Full(t.children[pos], degree)
    ensures var u := SplitChild(t, pos, degree);
      && |u.children[pos].entries| == degree - 1 && |u.children[pos + 1].entries| == degree
      && u.entries[pos] == t.children[pos].entries[degree - 1]
  {
    assert Shape(t.children[pos], degree, h - 1, false);
  }

  lemma SplitContents(es: seq<Entry>, cs: seq<Tree>, pos: nat, degree: nat, h: nat, root: bool)
    requires degree >= 1 && |cs| == |es| + 1 && pos <= |es|
    requires Shape(cs[pos], degree, h, root) && Full(cs[pos], degree)
    ensures InOrder(SplitChild(Inner(es, cs), pos, degree)) == InOrder(Inner(es, cs))
  {
    var child := cs[pos];
    var l, m, r := LeftHalf(child, degree), child.entries[degree - 1], RightHalf(child, degree);
    var b, a := Before(cs[..pos], es[..pos]), After(es[pos..], cs[pos + 1..]);
    assert InOrder(Inner(es, cs)) == b + (InOrder(l) + [m] + InOrder(r)) + a by {
      CutAtChild(es, cs, pos);
      HalvesContents(child, degree, h, root);
    }
    assert InOrder(SplitChild(Inner(es, cs), pos, degree)) == b + InOrder(l) + ([m] + InOrder(r) + a) by {
      WidenChild(es, cs, pos, l, m, r);
    }
    Regroup(b, InOrder(l), [m], InOrder(r), a);
  }

  lemma Regroup<T>(b: seq<T>, l: seq<T>, m: seq<T>, r: seq<T>, a: seq<T>)
    ensures b + l + (m + r + a) == b + (l + m + r) + a
  {}

  // The contents of a node after one child was replaced by two around a new separator
  lemma WidenChild(es: seq<Entry>, cs: seq<Tree>, pos: nat, l: Tree, m: Entry, r: Tree)
    requires |cs| == |es| + 1 && pos <= |es|
    ensures InOrder(Inner(InsertAt(es, pos, m), cs[..pos] + [l, r] + cs[pos + 1..]))
         == Before(cs[..pos], es[..pos]) + InOrder(l) + ([m] + InOrder(r) + After(es[pos..], cs[pos + 1..]))
  {
    var es', cs' := InsertAt(es, pos, m), cs[..pos] + [l, r] + cs[pos + 1..];
    CutAtChild(es', cs', pos);
    assert cs'[..pos] == cs[..pos] && es'[..pos] == es[..pos];
    assert es'[pos..] == [m] + es[pos..] && cs'[pos + 1..] == [r] + cs[pos + 1..];
    assert ([m] + es[pos..])[1..] == es[pos..] && ([r] + cs[pos + 1..])[1..] == cs[pos + 1..];
  }

  // A full root pushed under a new root and split
  ghost function GrowRoot(t: Tree, degree: nat): Tree
    requires degree >= 1 && Full(t, degree)
  {
    SplitChild(Inner([], [t]), 0, degree)
  }

  lemma GrowRootCorrect(t: Tree, degree: nat, h: nat)
    requires degree >= 1 && Shape(t, degree, h, true) && Full(t, degree)
    ensures Shape(GrowRoot(t, degree), degree, h + 1, true) && !Full(GrowRoot(t, degree), degree)
    ensures InOrder(GrowRoot(t, degree)) == InOrder(t)
  {
    HalvesShape(t, degree, h, true);
    SplitContents([], [t], 0, degree, h, true);
    assert InOrder(Inner([], [t])) == InOrder(t) by {
      assert After([], [t][1..]) == [];
    }
  }

  // ---------- Insertion ----------

  // Where the descent goes on, after a split of the chosen child if it was full
  ghost function DescendAt(t: Tree, degree: nat, key: Key): (r: (Tree, nat))
    requires degree >= 1 && t.Inner? && |t.children| == |t.entries| + 1
    ensures r.0.Inner? && |r.0.children| == |r.0.entries| + 1 && r.1 <= |r.0.entries|
  {
    var pos := LowerBound(t.entries, key);
    if Full(t.children[pos], degree) then
      var t' := SplitChild(t, pos, degree);
      (t', if Compare(key, t'.entries[pos].key) > 0 then pos + 1 else pos)
    else
      (t, pos)
  }

  lemma DescendAtCorrect(t: Tree, degree: nat, h: nat, root: bool, key: Key)
    requires degree >= 1 && Shape(t, degree, h, root) && t.Inner? && !Full(t, degree)
    ensures var (t', pos) := DescendAt(t, degree, key);
      && Shape(t', degree, h, root)
      && InOrder(t') == InOrder(t)
      && Brackets(t'.entries, key, pos)
      && !Full(t'.children[pos], degree)
  {
    var p := LowerBound(t.entries, key);
    var c := t.children[p];
    assert Shape(c, degree, h - 1, false);
    if Full(c, degree) {
      SplitChildCorrect(t, p, degree, h, root);
      HalvesHaveRoom(c, degree);
      SplitChildHalves(t, p, degree);
      SplitBrackets(t.entries, c.entries[degree - 1], p, key);
    }
  }

  lemma HalvesHaveRoom(c: Tree, degree: nat)
    requires degree >= 1 && Full(c, degree) && (c.Inner? ==> degree <= |c.children|)
    ensures !Full(LeftHalf(c, degree), degree) && !Full(RightHalf(c, degree), degree)
  {}

  lemma SplitChildHalves(t: Tree, pos: nat, degree: nat)
    requires degree >= 1 && t.Inner? && pos <= |t.entries| && pos < |t.children| && Full(t.children[pos], degree)
    ensures var (t', c) := (SplitChild(t, pos, degree), t.children[pos]);
      && |t'.children| == |t.children| + 1
      && t'.children[pos] == LeftHalf(c, degree) && t'.children[pos + 1] == RightHalf(c, degree)
  {}

  lemma SplitBrackets(es: seq<Entry>, m: Entry, p: nat, key: Key)
    requires p == LowerBound(es, key)
    ensures Brackets(InsertAt(es, p, m), key, if Compare(key, m.key) > 0 then p + 1 else p)
  {
    CompareFlips(key, m.key);
  }

  ghost function InsertNonFull(t: Tree, degree: nat, h: nat, root: bool, e: Entry): Tree
    requires degree >= 1 && Shape(t, degree, h, root) && !Full(t, degree)
    decreases h
  {
    match t
    case Leaf(es) => Leaf(Inserted(es, e))
    case Inner(_, _) =>
      DescendAtCorrect(t, degree, h, root, e.key);
      var (t', pos) := DescendAt(t, degree, e.key);
      Inner(t'.entries, t'.children[pos := InsertNonFull(t'.children[pos], degree, h - 1, false, e)])
  }

  // Replacing one child by a tree with other contents
  lemma ReplaceChild(es: seq<Entry>, cs: seq<Tree>, pos: nat, c: Tree)
    requires |cs| == |es| + 1 && pos <= |es|
    ensures InOrder(Inner(es, cs[pos := c]))
         == Before(cs[..pos], es[..pos]) + InOrder(c) + After(es[pos..], cs[pos + 1..])
  {
    var cs' := cs[pos := c];
    CutAtChild(es, cs', pos);
    assert cs'[..pos] == cs[..pos] && cs'[pos + 1..] == cs[pos + 1..];
  }

  // Inserting below a bracketed child inserts into the whole node
  lemma InsertBelow(es: seq<Entry>, cs: seq<Tree>, pos: nat, c: Tree, e: Entry, kind: Kind)
    requires |cs| == |es| + 1 && pos <= |es| && Brackets(es, e.key, pos)
    requires Sorted(InOrder(Inner(es, cs)), kind) && e.key.Kind() == kind != UnsupportedKind
    requires InOrder(c) == Inserted(InOrder(cs[pos]), e)
    ensures InOrder(Inner(es, cs[pos := c])) == Inserted(InOrder(Inner(es, cs)), e)
  {
    var a, b, d := Before(cs[..pos], es[..pos]), InOrder(cs[pos]), After(es[pos..], cs[pos + 1..]);
    CutAtChild(es, cs, pos);
    ReplaceChild(es, cs, pos, c);
    CutBrackets(es, cs, pos);
    InsertedInMiddle(a, b, d, e, kind);
  }

  lemma ChildSorted(es: seq<Entry>, cs: seq<Tree>, pos: nat, kind: Kind)
    requires |cs| == |es| + 1 && pos <= |es| && Sorted(InOrder(Inner(es, cs)), kind)
    ensures Sorted(InOrder(cs[pos]), kind)
  {
    CutAtChild(es, cs, pos);
    SortedParts(Before(cs[..pos], es[..pos]), InOrder(cs[pos]), After(es[pos..], cs[pos + 1..]), kind);
  }

  /** Insertion keeps the shape. */
  lemma {:induction false} InsertKeepsShape(t: Tree, degree: nat, h: nat, root: bool, e: Entry)
    requires degree >= 1 && Shape(t, degree, h, root) && !Full(t, degree)
    ensures Shape(InsertNonFull(t, degree, h, root, e), degree, h, root)
    decreases h
  {
    if t.Inner? {
      DescendAtCorrect(t, degree, h, root, e.key);
      var (t', pos) := DescendAt(t, degree, e.key);
      InsertKeepsShape(t'.children[pos], degree, h - 1, false, e);
    }
  }

  /** Insertion, read in order, is insertion into a sorted list at the lower bound. */
  lemma {:induction false} InsertRefinesList(t: Tree, degree: nat, h: nat, root: bool, e: Entry, kind: Kind)
    requires degree >= 1 && Shape(t, degree, h, root) && !Full(t, degree)
    requires Sorted(InOrder(t), kind) && e.key.Kind() == kind != UnsupportedKind
    ensures InOrder(InsertNonFull(t, degree, h, root, e)) == Inserted(InOrder(t), e)
    decreases h
  {
    if t.Inner? {
      DescendAtCorrect(t, degree, h, root, e.key);
      var (t', pos) := DescendAt(t, degree, e.key);
      var es, cs := t'.entries, t'.children;
      assert t' == Inner(es, cs);
      var c := InsertNonFull(cs[pos], degree, h - 1, false, e);
      assert InOrder(c) == Inserted(InOrder(cs[pos]), e) by {
        ChildSorted(es, cs, pos, kind);
        InsertRefinesList(cs[pos], degree, h - 1, false, e, kind);
      }
      assert InOrder(Inner(es, cs[pos := c])) == Inserted(InOrder(t'), e) by {
        InsertBelow(es, cs, pos, c, e, kind);
      }
      assert InsertNonFull(t, degree, h, root, e) == Inner(es, cs[pos := c]);
    }
  }

  // ---------- Searching ----------

  // A key missing at position pos of the separators can only be in the middle part
  lemma OnlyInMiddle(a: seq<Entry>, b: seq<Entry>, c: seq<Entry>, key: Key, kind: Kind)
    requires Sorted(a + b + c, kind) && key.Kind() == kind != UnsupportedKind
    requires a != [] ==> Compare(a[|a| - 1].key, key) < 0
    requires c != [] ==> Compare(c[0].key, key) > 0
    ensures forall e :: e in a + b + c && e.key == key ==> e in b
  {
    SortedParts(a, b, c, kind);
    SortedAllBelow(a, key, kind);
    SortedAllAbove(c, key, kind);
    ComparesEqual(key, key);
  }

  lemma SortedAllAbove(s: seq<Entry>, key: Key, kind: Kind)
    requires Sorted(s, kind) && key.Kind() == kind != UnsupportedKind
    requires s != [] ==> Compare(s[0].key, key) > 0
    ensures forall i :: 0 <= i < |s| ==> Compare(s[i].key, key) > 0
  {
    forall i | 0 <= i < |s| ensures Compare(s[i].key, key) > 0 {
      CompareFlips(s[0].key, key);
      CompareFlips(s[i].key, key);
      IsTotalOrder(key, s[0].key, s[i].key);
    }
  }

  /** At a node without the key, every entry with that key is under the child the search goes to. */
  lemma SearchDescends(t: Tree, key: Key, kind: Kind)
    requires t.Inner? && |t.children| == |t.entries| + 1
    requires Sorted(InOrder(t), kind) && key.Kind() == kind != UnsupportedKind
    requires var p := LowerBound(t.entries, key); p < |t.entries| ==> Compare(key, t.entries[p].key) != 0
    ensures var c := t.children[LowerBound(t.entries, key)];
      && Sorted(InOrder(c), kind)
      && (forall e :: e in InOrder(c) ==> e in InOrder(t))
      && (forall e :: e in InOrder(t) && e.key == key ==> e in InOrder(c))
  {
    var p := LowerBound(t.entries, key);
    var es, cs := t.entries, t.children;
    ChildSorted(es, cs, p, kind);
    CutAtChild(es, cs, p);
    if p < |es| {
      CompareFlips(key, es[p].key);
    }
    CutBrackets(es, cs, p);
    OnlyInMiddle(Before(cs[..p], es[..p]), InOrder(cs[p]), After(es[p..], cs[p + 1..]), key, kind);
  }

  // The parts left and right of a child end and begin with the separators beside it
  lemma CutBrackets(es: seq<Entry>, cs: seq<Tree>, p: nat)
    requires |cs| == |es| + 1 && p <= |es|
    ensures var a, c := Before(cs[..p], es[..p]), After(es[p..], cs[p + 1..]);
      && (a != [] <==> p > 0) && (p > 0 ==> a[|a| - 1] == es[p - 1])
      && (c != [] <==> p < |es|) && (p < |es| ==> c[0] == es[p])
  {
    if p > 0 {
      BeforeEndsWithSeparator(cs[..p], es[..p]);
    }
  }

  lemma {:induction false} SeparatorsSorted(es: seq<Entry>, cs: seq<Tree>, kind: Kind)
    requires |es| == |cs| && Sorted(After(es, cs), kind)
    ensures Sorted(es, kind)
    ensures forall e :: e in es ==> e in After(es, cs)
    decreases cs
  {
    if es != [] {
      var a, b := [es[0]] + InOrder(cs[0]), After(es[1..], cs[1..]);
      var s := a + b;
      assert b == s[|a|..];
      SeparatorsSorted(es[1..], cs[1..], kind);
      assert es == [es[0]] + es[1..] && s[0] == es[0];
      forall j | 0 <= j < |es| ensures Compare(es[0].key, es[j].key) <= 0 {
        if j > 0 {
          assert es[j] == es[1..][j - 1] && es[j] in es[1..] && es[j] in b;
          var k :| 0 <= k < |b| && b[k] == es[j];
          assert s[|a| + k] == es[j];
        }
      }
    }
  }

  /** The keys of one node are ordered, as its binary search needs. */
  lemma NodeSorted(t: Tree, kind: Kind)
    requires t.Inner? ==> |t.children| == |t.entries| + 1
    requires Sorted(InOrder(t), kind)
    ensures Sorted(t.entries, kind)
  {
    if t.Inner? {
      var a, b := InOrder(t.children[0]), After(t.entries, t.children[1..]);
      assert b == (a + b)[|a|..];
      SeparatorsSorted(t.entries, t.children[1..], kind);
    }
  }

  /** The entries stored in a node are entries of its tree. */
  lemma {:induction false} OwnEntryInOrder(t: Tree, p: nat)
    requires (t.Inner? ==> |t.children| == |t.entries| + 1) && p < |t.entries|
    ensures t.entries[p] in InOrder(t)
  {
    if t.Inner? {
      CutAtChild(t.entries, t.children, p);
      assert After(t.entries[p..], t.children[p + 1..])[0] == t.entries[p];
    }
  }

  // ---------- Height ----------

  function Power(b: nat, n: nat): nat {
    if n == 0 then 1 else b * Power(b, n - 1)
  }

  ghost function Count(ts: seq<Tree>): nat {
    if ts == [] then 0 else |InOrder(ts[0])| + Count(ts[1..])
  }

  lemma {:induction false} AfterCount(es: seq<Entry>, cs: seq<Tree>)
    requires |es| == |cs|
    ensures |After(es, cs)| == |es| + Count(cs)
    decreases cs
  {
    if es != [] {
      AfterCount(es[1..], cs[1..]);
    }
  }

  lemma {:induction false} CountAtLeast(ts: seq<Tree>, m: int)
    requires forall i :: 0 <= i < |ts| ==> |InOrder(ts[i])| >= m
    ensures Count(ts) >= |ts| * m
    decreases ts
  {
    if ts != [] {
      CountAtLeast(ts[1..], m);
      assert |ts| * m == m + |ts[1..]| * m;
    }
  }

  lemma TimesMonotone(a: nat, b: nat, q: nat)
    requires a <= b
    ensures a * q <= b * q
  {}

  lemma {:induction false} SubtreeSize(t: Tree, degree: nat, h: nat)
    requires degree >= 1 && Shape(t, degree, h, false)
    ensures |InOrder(t)| >= Power(degree, h + 1) - 1
    decreases h
  {
    match t
    case Leaf(_) => assert Power(degree, 1) == degree * Power(degree, 0);
    case Inner(es, cs) =>
      NodeSize(t, degree, h, false);
      var q := Power(degree, h) - 1;
      PowerPositive(degree, h);
      TimesMonotone(degree, |cs|, q);
      assert degree * q == degree * Power(degree, h) - degree;
  }

  lemma {:induction false} NodeSize(t: Tree, degree: nat, h: nat, root: bool)
    requires degree >= 1 && Shape(t, degree, h, root) && t.Inner?
    ensures |InOrder(t)| >= |t.entries| + |t.children| * (Power(degree, h) - 1)
    decreases h, 0
  {
    var es, cs := t.entries, t.children;
    forall i | 0 <= i < |cs| ensures |InOrder(cs[i])| >= Power(degree, h) - 1 {
      SubtreeSize(cs[i], degree, h - 1);
    }
    CountAtLeast(cs, Power(degree, h) - 1);
    AfterCount(es, cs[1..]);
  }

  /** A non-empty tree with leaves at depth h holds at least 2*degree^h - 1 entries. */
  lemma HeightBound(t: Tree, degree: nat, h: nat)
    requires degree >= 1 && Shape(t, degree, h, true) && InOrder(t) != []
    ensures |InOrder(t)| >= 2 * Power(degree, h) - 1
  {
    if t.Inner? {
      NodeSize(t, degree, h, true);
      var q := Power(degree, h) - 1;
      PowerPositive(degree, h);
      TimesMonotone(2, |t.children|, q);
    }
  }

  lemma {:induction false} PowerPositive(b: nat, n: nat)
    requires b >= 1
    ensures Power(b, n) >= 1
  {
    if n > 0 {
      PowerPositive(b, n - 1);
      assert b * Power(b, n - 1) >= Power(b, n - 1);
    }
  }
}

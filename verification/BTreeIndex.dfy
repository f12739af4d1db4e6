/**
 The mutable B-tree index: nodes on the heap whose slices are spliced in place.

 A ghost NodeTree says which nodes make up a tree and what they hold. Its footprint is
 a value, so that no node is shared (Distinct) is a fact about the NodeTree alone, and
 Matches says that the heap holds it. Every method states its effect as a function of
 the old tree; modules BTreeMixed and BTreeModel prove what that function does, for keys of
 any types and for keys of one type.

 Splitting reads the median entry of the full child before truncating the child. The
 code truncates first; module BTreeAsWritten describes what that does.
 */
module BTreeIndex {
  import opened IndexKeys
  import opened BTreeModel
  import opened BTreeMixed
  import opened Wrappers

  class Node {
    const capacity: nat
    var keys: seq<Key>
    var values: seq<seq<Value>>
    var children: seq<Node>
    var leaf: bool

    constructor (degree: nat, leaf: bool)
      ensures capacity == 2 * degree && this.leaf == leaf
      ensures keys == [] && values == [] && children == []
    {
      capacity := 2 * degree;
      keys, values, children, this.leaf := [], [], [], leaf;
    }

    predicate IsFull()
      reads this
    {
      |keys| == capacity
    }
  }

  function Zip(keys: seq<Key>, values: seq<seq<Value>>): (es: seq<Entry>)
    requires |keys| == |values|
    ensures |es| == |keys|
    ensures forall i :: 0 <= i < |es| ==> es[i] == Entry(keys[i], values[i])
  {
    seq(|keys|, i requires 0 <= i < |keys| => Entry(keys[i], values[i]))
  }

  lemma ZipInsert(keys: seq<Key>, values: seq<seq<Value>>, pos: nat, key: Key, value: seq<Value>)
    requires |keys| == |values| && pos <= |keys|
    ensures Zip(InsertAt(keys, pos, key), InsertAt(values, pos, value))
         == InsertAt(Zip(keys, values), pos, Entry(key, value))
  {}

  // ---------- Trees of nodes ----------

  datatype NodeTree = NodeTree(node: Node, entries: seq<Entry>, children: seq<NodeTree>)

  ghost function Footprint(t: NodeTree): set<Node>
    decreases t
  {
    {t.node} + FootprintAll(t.children)
  }

  ghost function FootprintAll(ts: seq<NodeTree>): set<Node>
    decreases ts
  {
    if ts == [] then {} else Footprint(ts[0]) + FootprintAll(ts[1..])
  }

  /** No node occurs twice. */
  ghost predicate Distinct(t: NodeTree)
    decreases t
  {
    t.node !in FootprintAll(t.children) && DistinctAll(t.children)
  }

  ghost predicate DistinctAll(ts: seq<NodeTree>)
    decreases ts
  {
    ts == [] || (Distinct(ts[0]) && Footprint(ts[0]) !! FootprintAll(ts[1..]) && DistinctAll(ts[1..]))
  }

  ghost function Erase(t: NodeTree): Tree
    decreases t
  {
    if t.children == [] then Leaf(t.entries) else Inner(t.entries, EraseAll(t.children))
  }

  ghost function EraseAll(ts: seq<NodeTree>): (r: seq<Tree>)
    ensures |r| == |ts|
    ensures forall i :: 0 <= i < |ts| ==> r[i] == Erase(ts[i])
    decreases ts
  {
    if ts == [] then [] else [Erase(ts[0])] + EraseAll(ts[1..])
  }

  /** The heap holds the given tree. */
  ghost predicate Matches(t: NodeTree, degree: nat)
    reads Footprint(t)
    decreases t
  {
    && t.node.capacity == 2 * degree
    && |t.node.keys| == |t.node.values|
    && t.entries == Zip(t.node.keys, t.node.values)
    && (t.node.leaf <==> t.children == [])
    && MatchesAll(t.node.children, t.children, degree)
  }

  ghost predicate MatchesAll(ns: seq<Node>, ts: seq<NodeTree>, degree: nat)
    reads FootprintAll(ts)
    decreases ts
  {
    && |ns| == |ts|
    && (ts != [] ==> ns[0] == ts[0].node && Matches(ts[0], degree) && MatchesAll(ns[1..], ts[1..], degree))
  }

  lemma {:induction false} DistinctJoin(ts: seq<NodeTree>, us: seq<NodeTree>)
    ensures FootprintAll(ts + us) == FootprintAll(ts) + FootprintAll(us)
    ensures DistinctAll(ts + us)
       <==> DistinctAll(ts) && DistinctAll(us) && FootprintAll(ts) !! FootprintAll(us)
    decreases ts
  {
    if ts == [] {
      assert ts + us == us;
    } else {
      assert (ts + us)[1..] == ts[1..] + us;
      DistinctJoin(ts[1..], us);
    }
  }

  lemma {:induction false} MatchesJoin(ns: seq<Node>, ts: seq<NodeTree>, ms: seq<Node>, us: seq<NodeTree>, degree: nat)
    requires |ns| == |ts|
    ensures MatchesAll(ns + ms, ts + us, degree) <==> MatchesAll(ns, ts, degree) && MatchesAll(ms, us, degree)
    decreases ts
  {
    if ts == [] {
      assert ts + us == us && ns + ms == ms;
    } else {
      assert (ts + us)[1..] == ts[1..] + us && (ns + ms)[1..] == ns[1..] + ms;
      MatchesJoin(ns[1..], ts[1..], ms, us, degree);
    }
  }

  lemma One(n: Node, t: NodeTree, degree: nat)
    ensures FootprintAll([t]) == Footprint(t)
    ensures DistinctAll([t]) <==> Distinct(t)
    ensures MatchesAll([n], [t], degree) <==> n == t.node && Matches(t, degree)
  {
    assert [t][1..] == [] && [n][1..] == [];
  }

  lemma FootprintFocus(ts: seq<NodeTree>, pos: nat)
    requires pos < |ts|
    ensures FootprintAll(ts[..pos] + [ts[pos]]) == FootprintAll(ts[..pos]) + Footprint(ts[pos])
    ensures DistinctAll(ts[..pos] + [ts[pos]])
       <==> DistinctAll(ts[..pos]) && Distinct(ts[pos]) && FootprintAll(ts[..pos]) !! Footprint(ts[pos])
  {
    One(ts[pos].node, ts[pos], 0);
    DistinctJoin(ts[..pos], [ts[pos]]);
  }

  lemma DistinctFocus(ts: seq<NodeTree>, pos: nat)
    requires pos < |ts|
    ensures FootprintAll(ts) == FootprintAll(ts[..pos]) + Footprint(ts[pos]) + FootprintAll(ts[pos + 1..])
    ensures DistinctAll(ts) <==>
      && DistinctAll(ts[..pos]) && Distinct(ts[pos]) && DistinctAll(ts[pos + 1..])
      && FootprintAll(ts[..pos]) !! Footprint(ts[pos])
      && FootprintAll(ts[..pos]) + Footprint(ts[pos]) !! FootprintAll(ts[pos + 1..])
  {
    assert ts == ts[..pos] + [ts[pos]] + ts[pos + 1..];
    FootprintFocus(ts, pos);
    DistinctJoin(ts[..pos] + [ts[pos]], ts[pos + 1..]);
  }

  lemma MatchesFocus(ns: seq<Node>, ts: seq<NodeTree>, pos: nat, degree: nat)
    requires |ns| == |ts| && pos < |ts|
    ensures MatchesAll(ns, ts, degree) <==>
      && MatchesAll(ns[..pos], ts[..pos], degree)
      && ns[pos] == ts[pos].node && Matches(ts[pos], degree)
      && MatchesAll(ns[pos + 1..], ts[pos + 1..], degree)
  {
    assert ts == ts[..pos] + [ts[pos]] + ts[pos + 1..];
    assert ns == ns[..pos] + [ns[pos]] + ns[pos + 1..];
    One(ns[pos], ts[pos], degree);
    MatchesJoin(ns[..pos], ts[..pos], [ns[pos]], [ts[pos]], degree);
    MatchesJoin(ns[..pos] + [ns[pos]], ts[..pos] + [ts[pos]], ns[pos + 1..], ts[pos + 1..], degree);
  }

  // ---------- Binary search ----------

  // The position the library's search ends at, monotone or not
  ghost function Probe(f: nat --> bool, i: nat, j: nat): (pos: nat)
    requires i <= j && forall k: nat :: k < j ==> f.requires(k)
    ensures i <= pos <= j
    decreases j - i
  {
    if i == j then i
    else
      var h := (i + j) / 2;
      if f(h) then Probe(f, i, h) else Probe(f, h + 1, j)
  }

  ghost predicate Monotone(f: nat --> bool, n: nat)
    requires forall i: nat :: i < n ==> f.requires(i)
  {
    forall i: nat, j: nat :: i <= j < n && f(i) ==> f(j)
  }

  /** The library's binary search; for a monotone f, it finds the first index at which f holds. */
  method SortSearch(n: nat, f: nat --> bool) returns (pos: nat)
    requires forall i: nat :: i < n ==> f.requires(i)
    ensures pos <= n && pos == Probe(f, 0, n)
    ensures Monotone(f, n) ==> forall i: nat :: i < n ==> (f(i) <==> pos <= i)
  {
    pos := 0;
    var j := n;
    while pos < j
      invariant pos <= j <= n && Probe(f, pos, j) == Probe(f, 0, n)
      invariant Monotone(f, n) ==> forall i: nat :: i < pos ==> !f(i)
      invariant Monotone(f, n) ==> forall i: nat :: j <= i < n ==> f(i)
    {
      var h := (pos + j) / 2;
      if !f(h) {
        pos := h + 1;
      } else {
        j := h;
      }
    }
  }

  lemma {:induction false} ProbeIsBinarySearch(f: nat --> bool, es: seq<Entry>, key: Key, i: nat, j: nat)
    requires i <= j <= |es| && forall k: nat :: k < |es| ==> f.requires(k)
    requires forall k: nat :: k < |es| ==> (f(k) <==> Compare(es[k].key, key) >= 0)
    ensures Probe(f, i, j) == BinarySearch(es, key, i, j)
    decreases j - i
  {
    if i < j {
      var h := (i + j) / 2;
      if f(h) {
        ProbeIsBinarySearch(f, es, key, i, h);
      } else {
        ProbeIsBinarySearch(f, es, key, h + 1, j);
      }
    }
  }

  // The position insertion descends to or inserts at
  method InsertPosition(keys: seq<Key>, key: Key, ghost es: seq<Entry>) returns (pos: nat)
    requires |es| == |keys| && forall i :: 0 <= i < |es| ==> es[i].key == keys[i]
    ensures pos == Position(es, key)
  {
    var f := (j: nat) requires j < |keys| => Compare(keys[j], key) >= 0;
    pos := SortSearch(|keys|, f);
    ProbeIsBinarySearch(f, es, key, 0, |es|);
  }

  // The position a search looks at, found with the arguments of the comparison swapped
  method SearchPosition(keys: seq<Key>, key: Key, ghost es: seq<Entry>) returns (pos: nat)
    requires |es| == |keys| && forall i :: 0 <= i < |es| ==> es[i].key == keys[i]
    ensures pos == Position(es, key)
  {
    var f := (j: nat) requires j < |keys| => Compare(key, keys[j]) <= 0;
    forall i: nat | i < |keys| ensures f(i) <==> Compare(es[i].key, key) >= 0 {
      CompareFlips(key, keys[i]);
    }
    pos := SortSearch(|keys|, f);
    ProbeIsBinarySearch(f, es, key, 0, |es|);
  }

  // ---------- The index ----------

  ghost function LowerPart(t: NodeTree, degree: nat): NodeTree
    requires 1 <= degree <= |t.entries| && (t.children != [] ==> degree <= |t.children|)
  {
    NodeTree(t.node, t.entries[..degree - 1], if t.children == [] then [] else t.children[..degree])
  }

  ghost function UpperPart(t: NodeTree, degree: nat, newNode: Node): NodeTree
    requires 1 <= degree <= |t.entries| && (t.children != [] ==> degree <= |t.children|)
  {
    NodeTree(newNode, t.entries[degree..], if t.children == [] then [] else t.children[degree..])
  }

  lemma PartsDistinct(t: NodeTree, degree: nat, newNode: Node)
    requires 1 <= degree <= |t.entries| && (t.children != [] ==> degree <= |t.children|)
    requires Distinct(t) && newNode !in Footprint(t)
    ensures var l, u := LowerPart(t, degree), UpperPart(t, degree, newNode);
      && Distinct(l) && Distinct(u) && Footprint(l) !! Footprint(u)
      && Footprint(l) + Footprint(u) == Footprint(t) + {newNode}
  {
    if t.children != [] {
      assert t.children == t.children[..degree] + t.children[degree..];
      DistinctJoin(t.children[..degree], t.children[degree..]);
    }
  }

  lemma MatchesParts(ns: seq<Node>, ts: seq<NodeTree>, degree: nat)
    requires |ns| == |ts| && degree <= |ts| && MatchesAll(ns, ts, degree)
    ensures MatchesAll(ns[..degree], ts[..degree], degree) && MatchesAll(ns[degree..], ts[degree..], degree)
    ensures FootprintAll(ts) == FootprintAll(ts[..degree]) + FootprintAll(ts[degree..])
  {
    assert ts == ts[..degree] + ts[degree..] && ns == ns[..degree] + ns[degree..];
    DistinctJoin(ts[..degree], ts[degree..]);
    MatchesJoin(ns[..degree], ts[..degree], ns[degree..], ts[degree..], degree);
  }

  // The nodes after child number index was split, the upper part going to newNode
  ghost function SplitNodes(t: NodeTree, index: nat, degree: nat, newNode: Node): NodeTree
    requires index < |t.children| && index <= |t.entries| && 1 <= degree <= |t.children[index].entries|
    requires t.children[index].children != [] ==> degree <= |t.children[index].children|
  {
    var c := t.children[index];
    NodeTree(t.node, InsertAt(t.entries, index, c.entries[degree - 1]),
             t.children[..index] + [LowerPart(c, degree)] + ([UpperPart(c, degree, newNode)] + t.children[index + 1..]))
  }

  lemma SplitNodesDistinct(t: NodeTree, index: nat, degree: nat, newNode: Node)
    requires index < |t.children| && index <= |t.entries| && 1 <= degree <= |t.children[index].entries|
    requires t.children[index].children != [] ==> degree <= |t.children[index].children|
    requires Distinct(t) && newNode !in Footprint(t)
    ensures Distinct(SplitNodes(t, index, degree, newNode))
    ensures Footprint(SplitNodes(t, index, degree, newNode)) == Footprint(t) + {newNode}
  {
    var ts, c := t.children, t.children[index];
    var l, u := LowerPart(c, degree), UpperPart(c, degree, newNode);
    DistinctFocus(ts, index);
    PartsDistinct(c, degree, newNode);
    WidenedFootprint(ts[..index], l, u, ts[index + 1..]);
  }

  lemma WidenedFootprint(a: seq<NodeTree>, l: NodeTree, u: NodeTree, b: seq<NodeTree>)
    ensures FootprintAll(a + [l] + ([u] + b)) == FootprintAll(a) + Footprint(l) + Footprint(u) + FootprintAll(b)
    ensures DistinctAll(a + [l] + ([u] + b)) <==>
      && DistinctAll(a) && Distinct(l) && Distinct(u) && DistinctAll(b)
      && FootprintAll(a) !! Footprint(l) && Footprint(u) !! FootprintAll(b)
      && FootprintAll(a) + Footprint(l) !! Footprint(u) + FootprintAll(b)
  {
    One(l.node, l, 0);
    One(u.node, u, 0);
    DistinctJoin(a, [l]);
    DistinctJoin([u], b);
    DistinctJoin(a + [l], [u] + b);
  }

  lemma SplitNodesErase(t: NodeTree, index: nat, degree: nat, newNode: Node)
    requires index < |t.children| && index <= |t.entries| && |t.children[index].entries| == 2 * degree > 0
    requires t.children[index].children != [] ==> degree < |t.children[index].children|
    ensures Erase(SplitNodes(t, index, degree, newNode)) == BTreeModel.SplitChild(Erase(t), index, degree)
  {
    var ts, c := t.children, t.children[index];
    var l, u := LowerPart(c, degree), UpperPart(c, degree, newNode);
    PartsErase(c, degree, newNode);
    EraseWidened(ts, index, l, u);
  }

  lemma PartsErase(c: NodeTree, degree: nat, newNode: Node)
    requires |c.entries| == 2 * degree > 0 && (c.children != [] ==> degree < |c.children|)
    ensures Erase(LowerPart(c, degree)) == LeftHalf(Erase(c), degree)
    ensures Erase(UpperPart(c, degree, newNode)) == RightHalf(Erase(c), degree)
  {
    if c.children != [] {
      assert EraseAll(c.children[..degree]) == EraseAll(c.children)[..degree];
      assert EraseAll(c.children[degree..]) == EraseAll(c.children)[degree..];
    }
  }

  lemma EraseWidened(ts: seq<NodeTree>, index: nat, l: NodeTree, u: NodeTree)
    requires index < |ts|
    ensures EraseAll(ts[..index] + [l] + ([u] + ts[index + 1..]))
         == EraseAll(ts)[..index] + [Erase(l), Erase(u)] + EraseAll(ts)[index + 1..]
  {
    EraseJoin(ts[..index] + [l], [u] + ts[index + 1..]);
    EraseJoin(ts[..index], [l]);
    EraseJoin([u], ts[index + 1..]);
    EraseParts(ts, index);
    SideBySide(EraseAll(ts)[..index], Erase(l), Erase(u), EraseAll(ts)[index + 1..]);
  }

  lemma EraseParts(ts: seq<NodeTree>, index: nat)
    requires index < |ts|
    ensures EraseAll(ts[..index]) == EraseAll(ts)[..index] && EraseAll(ts[index + 1..]) == EraseAll(ts)[index + 1..]
  {}

  lemma EraseJoin(ts: seq<NodeTree>, us: seq<NodeTree>)
    ensures EraseAll(ts + us) == EraseAll(ts) + EraseAll(us)
  {}

  lemma WidenedMatches(ns: seq<Node>, ts: seq<NodeTree>, index: nat, l: NodeTree, u: NodeTree, degree: nat)
    requires |ns| == |ts| && index < |ts| && ns[index] == l.node
    requires MatchesAll(ns[..index], ts[..index], degree) && Matches(l, degree)
    requires Matches(u, degree) && MatchesAll(ns[index + 1..], ts[index + 1..], degree)
    ensures MatchesAll(InsertAt(ns, index + 1, u.node), ts[..index] + [l] + ([u] + ts[index + 1..]), degree)
  {
    One(l.node, l, degree);
    One(u.node, u, degree);
    MatchesJoin(ns[..index], ts[..index], [l.node], [l], degree);
    MatchesJoin([u.node], [u], ns[index + 1..], ts[index + 1..], degree);
    MatchesJoin(ns[..index] + [l.node], ts[..index] + [l], [u.node] + ns[index + 1..], [u] + ts[index + 1..], degree);
    assert InsertAt(ns, index + 1, u.node) == ns[..index] + [l.node] + ([u.node] + ns[index + 1..]);
  }

  // The nodes after child number pos became another tree
  ghost function ReplaceChildNodes(t: NodeTree, pos: nat, c: NodeTree): NodeTree
    requires pos < |t.children|
  {
    NodeTree(t.node, t.entries, t.children[..pos] + [c] + t.children[pos + 1..])
  }

  lemma ReplaceDistinct(t: NodeTree, pos: nat, c: NodeTree, grown: set<Node>)
    requires pos < |t.children| && Distinct(t) && Distinct(c)
    requires Footprint(c) <= Footprint(t.children[pos]) + grown && grown !! Footprint(t)
    ensures Distinct(ReplaceChildNodes(t, pos, c))
    ensures Footprint(ReplaceChildNodes(t, pos, c)) <= Footprint(t) + grown
  {
    var ts := t.children;
    DistinctFocus(ts, pos);
    One(c.node, c, 0);
    DistinctJoin(ts[..pos], [c]);
    DistinctJoin(ts[..pos] + [c], ts[pos + 1..]);
  }

  lemma ReplaceMatches(ns: seq<Node>, ts: seq<NodeTree>, pos: nat, c: NodeTree, degree: nat)
    requires |ns| == |ts| && pos < |ts| && ns[pos] == c.node && Matches(c, degree)
    requires MatchesAll(ns[..pos], ts[..pos], degree) && MatchesAll(ns[pos + 1..], ts[pos + 1..], degree)
    ensures MatchesAll(ns, ts[..pos] + [c] + ts[pos + 1..], degree)
  {
    One(c.node, c, degree);
    MatchesJoin(ns[..pos], ts[..pos], [c.node], [c], degree);
    MatchesJoin(ns[..pos] + [c.node], ts[..pos] + [c], ns[pos + 1..], ts[pos + 1..], degree);
    assert ns == ns[..pos] + [c.node] + ns[pos + 1..];
  }

  lemma ReplaceErase(ts: seq<NodeTree>, pos: nat, c: NodeTree)
    requires pos < |ts|
    ensures EraseAll(ts[..pos] + [c] + ts[pos + 1..]) == EraseAll(ts)[pos := Erase(c)]
  {
    EraseJoin(ts[..pos] + [c], ts[pos + 1..]);
    EraseJoin(ts[..pos], [c]);
    assert EraseAll(ts[..pos]) == EraseAll(ts)[..pos];
    assert EraseAll(ts[pos + 1..]) == EraseAll(ts)[pos + 1..];
  }

  /** What insertion and search rely on at every node they visit. */
  ghost predicate Holds(t: NodeTree, degree: nat, h: nat, root: bool) {
    degree >= 1 && Distinct(t) && Shape(Erase(t), degree, h, root)
  }

  lemma HoldsInner(t: NodeTree, degree: nat, h: nat, root: bool)
    requires Holds(t, degree, h, root)
    ensures |t.entries| <= 2 * degree
    ensures t.children == [] <==> h == 0
    ensures h > 0 ==> Erase(t).Inner? && |t.children| == |t.entries| + 1
  {}

  lemma HoldsChild(t: NodeTree, degree: nat, h: nat, root: bool, pos: nat)
    requires Holds(t, degree, h, root) && h > 0 && pos < |t.children|
    ensures Holds(t.children[pos], degree, h - 1, false)
    ensures Footprint(t.children[pos]) <= Footprint(t) - {t.node}
  {
    DistinctFocus(t.children, pos);
  }

  lemma ChildCanSplit(t: NodeTree, degree: nat, h: nat, root: bool, pos: nat)
    requires Holds(t, degree, h, root) && h > 0 && pos < |t.children|
    requires |t.children[pos].entries| == 2 * degree
    ensures t.children[pos].children != [] ==> degree < |t.children[pos].children|
    ensures t.children[pos].node in Footprint(t)
  {
    HoldsChild(t, degree, h, root, pos);
    HoldsInner(t.children[pos], degree, h - 1, false);
  }

  lemma RoomBelow(t: NodeTree, t': NodeTree, degree: nat, h: nat, root: bool, key: Key)
    requires Holds(t, degree, h, root) && Holds(t', degree, h, root)
    requires h > 0 && |t.entries| < 2 * degree
    requires Erase(t').Inner? && Erase(t') == Descend(Erase(t), degree, key).0
    ensures var pos := Descend(Erase(t), degree, key).1;
      pos < |t'.children| && |t'.children[pos].entries| < 2 * degree
  {
    DescendHasRoom(Erase(t), degree, h, root, key);
    ErasedChild(t', Descend(Erase(t), degree, key).1);
  }

  lemma ErasedChild(t: NodeTree, pos: nat)
    requires Erase(t).Inner? && pos < |Erase(t).children|
    ensures |t.children| == |Erase(t).children|
    ensures Erase(t).children[pos].entries == t.children[pos].entries
  {
    assert Erase(t).children[pos] == Erase(t.children[pos]);
  }

  // The entry a search below t stops at
  ghost function Found(t: NodeTree, degree: nat, h: nat, root: bool, key: Key): Option<Entry>
    requires Holds(t, degree, h, root)
  {
    SearchEntry(Erase(t), degree, h, root, key)
  }

  lemma SearchStops(t: NodeTree, degree: nat, h: nat, root: bool, key: Key, p: nat)
    requires Holds(t, degree, h, root) && p == Position(t.entries, key)
    requires p < |t.entries| && Compare(key, t.entries[p].key) == 0
    ensures Found(t, degree, h, root, key) == Some(t.entries[p])
  {}

  // Where the search goes on from a node at which it does not stop
  lemma SearchGoesOn(t: NodeTree, degree: nat, h: nat, root: bool, key: Key, p: nat)
    requires Matches(t, degree) && Holds(t, degree, h, root) && p == Position(t.entries, key)
    requires !(p < |t.entries| && Compare(key, t.entries[p].key) == 0)
    ensures t.children == [] ==> Found(t, degree, h, root, key) == None
    ensures t.children != [] ==>
      && h > 0 && p < |t.children| == |t.node.children| && t.node.children[p] == t.children[p].node
      && Matches(t.children[p], degree) && Holds(t.children[p], degree, h - 1, false)
      && Found(t, degree, h, root, key) == Found(t.children[p], degree, h - 1, false, key)
  {
    HoldsInner(t, degree, h, root);
    if t.children != [] {
      HoldsChild(t, degree, h, root, p);
      MatchesFocus(t.node.children, t.children, p, degree);
      assert Erase(t).children[p] == Erase(t.children[p]);
    }
  }

  lemma HoldsGrown(t: NodeTree, t': NodeTree, degree: nat, h: nat)
    requires Holds(t, degree, h, true) && |t.entries| == 2 * degree
    requires Distinct(t') && Erase(t') == BTreeModel.SplitChild(Inner([], [Erase(t)]), 0, degree)
    ensures Holds(t', degree, h + 1, true) && |t'.entries| < 2 * degree
    ensures Erase(t') == BTreeModel.GrowRoot(Erase(t), degree)
  {
    GrowRootCorrect(Erase(t), degree, h);
  }

  lemma HoldsInserted(t: NodeTree, t': NodeTree, degree: nat, h: nat, e: Entry)
    requires Holds(t, degree, h, true) && |t.entries| < 2 * degree
    requires Distinct(t') && Erase(t') == InsertAny(Erase(t), degree, h, true, e)
    ensures Holds(t', degree, h, true)
  {
    InsertAnyKeepsShape(Erase(t), degree, h, true, e);
  }

  // What an insertion does to an ascending list of keys of one supported type
  ghost predicate PlacedInOrder(before: seq<Entry>, after: seq<Entry>, e: Entry) {
    Ascending(before, e.key.Kind()) && e.key.Kind() != UnsupportedKind ==>
      after == Inserted(before, e) && Ascending(after, e.key.Kind())
  }

  lemma InsertRootOrdered(t: Tree, degree: nat, h: nat, e: Entry)
    requires degree >= 1 && Shape(t, degree, h, true)
    ensures PlacedInOrder(InOrder(t), InOrder(InsertRoot(t, degree, h, e).0), e)
  {
    if Ascending(InOrder(t), e.key.Kind()) && e.key.Kind() != UnsupportedKind {
      SortedIsAscending(InOrder(t), e.key.Kind());
      InsertRootRefinesList(t, degree, h, e, e.key.Kind());
      InsertedStaysSorted(InOrder(t), e, e.key.Kind());
      SortedIsAscending(Inserted(InOrder(t), e), e.key.Kind());
    }
  }

  lemma GrownCorrect(t: Tree, h: nat, degree: nat, u: Tree, k: nat, e: Entry)
    requires degree >= 1 && Shape(t, degree, h, true) && (u, k) == Roomy(t, degree, h)
    requires Shape(u, degree, k, true) && !Full(u, degree)
    ensures InsertRoot(t, degree, h, e) == (InsertAny(u, degree, k, true, e), k)
    ensures |InOrder(InsertAny(u, degree, k, true, e))| == |InOrder(t)| + 1
  {
    RoomyCorrect(t, degree, h);
    InsertRootCorrect(t, degree, h, e);
  }

  ghost function ValuesOf(r: Option<Entry>): Option<seq<Value>> {
    if r.Some? then Some(r.value.values) else None
  }

  // What a lookup answers among keys of one supported type
  ghost predicate FoundInOrder(s: seq<Entry>, key: Key, r: Option<seq<Value>>) {
    Ascending(s, key.Kind()) && key.Kind() != UnsupportedKind ==>
      && (r.None? <==> forall e :: e in s ==> e.key != key)
      && (r.Some? ==> Entry(key, r.value) in s)
  }

  lemma SearchOrdered(t: Tree, degree: nat, h: nat, key: Key)
    requires degree >= 1 && Shape(t, degree, h, true)
    ensures FoundInOrder(InOrder(t), key, ValuesOf(SearchEntry(t, degree, h, true, key)))
  {
    if Ascending(InOrder(t), key.Kind()) && key.Kind() != UnsupportedKind {
      SortedIsAscending(InOrder(t), key.Kind());
      SearchIsRight(t, degree, h, true, key, key.Kind());
    }
  }

  // A new root above the given tree
  lemma AboveRoot(newRoot: Node, t: NodeTree)
    requires Distinct(t) && newRoot !in Footprint(t)
    ensures var above := NodeTree(newRoot, [], [t]);
      && Distinct(above) && Footprint(above) == Footprint(t) + {newRoot}
      && Erase(above) == Inner([], [Erase(t)])
  {
    One(t.node, t, 0);
    assert EraseAll([t]) == [Erase(t)];
  }

  class BTreeIndex {
    const degree: nat
    var root: Node
    var size: int
    ghost var nodes: NodeTree
    ghost var height: nat

    // The entries in the order of the tree
    ghost function Contents(): seq<Entry>
      reads this
    {
      InOrder(Erase(nodes))
    }

    ghost predicate Valid()
      reads this, Footprint(nodes)
    {
      && root == nodes.node
      && Matches(nodes, degree)
      && Holds(nodes, degree, height, true)
      && size == |Contents()|
    }

    // The tree of a well-formed index, and its height
    ghost function Model(): Option<(Tree, nat)>
      reads this, Footprint(nodes)
    {
      if Valid() then Some((Erase(nodes), height)) else None
    }

    constructor (degree: nat)
      requires degree >= 1
      ensures Valid() && this.degree == degree
      ensures Model() == Some((Leaf([]), 0)) && fresh(Footprint(nodes))
    {
      this.degree := degree;
      var node := new Node(degree, true);
      root, size := node, 0;
      nodes, height := NodeTree(node, [], []), 0;
    }

    // btree.go, lines 131 to 139: a new node with what is right of the median
    method UpperNode(child: Node, ghost t: NodeTree) returns (newNode: Node)
      requires 1 <= degree < |t.entries| && (t.children != [] ==> degree < |t.children|)
      requires child == t.node && Matches(t, degree)
      ensures fresh(newNode) && newNode !in Footprint(t)
      ensures Matches(UpperPart(t, degree, newNode), degree)
    {
      assert allocated(Footprint(t));
      var mid := degree - 1;
      newNode := new Node(degree, child.leaf);
      newNode.keys := newNode.keys + child.keys[mid + 1..];
      newNode.values := newNode.values + child.values[mid + 1..];
      if !child.leaf {
        newNode.children := newNode.children + child.children[mid + 1..];
        assert newNode.children == child.children[degree..];
        MatchesParts(child.children, t.children, degree);
      }
    }

    // btree.go, lines 141 to 145: the child keeps what is left of the median
    method Truncate(child: Node, ghost t: NodeTree)
      requires 1 <= degree < |t.entries| && (t.children != [] ==> degree < |t.children|)
      requires child == t.node && Matches(t, degree) && Distinct(t)
      modifies child
      ensures Matches(LowerPart(t, degree), degree)
    {
      var mid := degree - 1;
      if !child.leaf {
        MatchesParts(child.children, t.children, degree);
      }
      child.keys := child.keys[..mid];
      child.values := child.values[..mid];
      if !child.leaf {
        child.children := child.children[..mid + 1];
      }
    }

    // btree.go, lines 129 to 145, but reading the median before the truncation
    method SplitNode(child: Node, ghost t: NodeTree)
      returns (newNode: Node, medianKey: Key, medianValues: seq<Value>)
      requires 1 <= degree < |t.entries| && (t.children != [] ==> degree < |t.children|)
      requires child == t.node && Matches(t, degree) && Distinct(t)
      modifies child
      ensures fresh(newNode) && newNode !in Footprint(t)
      ensures Matches(LowerPart(t, degree), degree) && Matches(UpperPart(t, degree, newNode), degree)
      ensures Entry(medianKey, medianValues) == t.entries[degree - 1]
    {
      assert allocated(Footprint(t));
      newNode := UpperNode(child, t);
      medianKey, medianValues := child.keys[degree - 1], child.values[degree - 1];
      PartsDistinct(t, degree, newNode);
      Truncate(child, t);
    }

    // btree.go, lines 147 to 149: the parent takes the median and the new node
    method Link(parent: Node, index: nat, medianKey: Key, medianValues: seq<Value>, newNode: Node,
                ghost es: seq<Entry>, ghost ts: seq<NodeTree>, ghost l: NodeTree, ghost u: NodeTree)
      requires parent.capacity == 2 * degree && |parent.keys| == |parent.values| && !parent.leaf
      requires es == Zip(parent.keys, parent.values)
      requires index <= |es| && index < |ts| == |parent.children|
      requires parent.children[index] == l.node && newNode == u.node
      requires MatchesAll(parent.children[..index], ts[..index], degree) && Matches(l, degree)
      requires Matches(u, degree) && MatchesAll(parent.children[index + 1..], ts[index + 1..], degree)
      requires parent !in FootprintAll(ts[..index] + [l] + ([u] + ts[index + 1..]))
      modifies parent
      ensures Matches(NodeTree(parent, InsertAt(es, index, Entry(medianKey, medianValues)),
                               ts[..index] + [l] + ([u] + ts[index + 1..])), degree)
    {
      ghost var ns := parent.children;
      WidenedFootprint(ts[..index], l, u, ts[index + 1..]);
      ZipInsert(parent.keys, parent.values, index, medianKey, medianValues);
      parent.keys := InsertAt(parent.keys, index, medianKey);
      parent.values := InsertAt(parent.values, index, medianValues);
      parent.children := InsertAt(parent.children, index + 1, newNode);
      WidenedMatches(ns, ts, index, l, u, degree);
    }

    // The parent links the halves of its child at index, everything else being as in t
    method LinkHalves(parent: Node, index: nat, medianKey: Key, medianValues: seq<Value>, newNode: Node,
                      ghost t: NodeTree)
      returns (ghost t': NodeTree)
      requires 1 <= degree && parent == t.node && Distinct(t)
      requires |t.children| == |t.entries| + 1 && index < |t.children| == |parent.children|
      requires |t.children[index].entries| == 2 * degree
      requires t.children[index].children != [] ==> degree < |t.children[index].children|
      requires parent.capacity == 2 * degree && |parent.keys| == |parent.values| && !parent.leaf
      requires t.entries == Zip(parent.keys, parent.values) && parent.children[index] == t.children[index].node
      requires Entry(medianKey, medianValues) == t.children[index].entries[degree - 1]
      requires newNode !in Footprint(t)
      requires MatchesAll(parent.children[..index], t.children[..index], degree)
      requires MatchesAll(parent.children[index + 1..], t.children[index + 1..], degree)
      requires Matches(LowerPart(t.children[index], degree), degree)
      requires Matches(UpperPart(t.children[index], degree, newNode), degree)
      modifies parent
      ensures t'.node == parent && Matches(t', degree) && Distinct(t') && t'.children != []
      ensures Footprint(t') == Footprint(t) + {newNode}
      ensures Erase(t') == BTreeModel.SplitChild(Erase(t), index, degree)
    {
      t' := SplitNodes(t, index, degree, newNode);
      SplitNodesDistinct(t, index, degree, newNode);
      SplitNodesErase(t, index, degree, newNode);
      Link(parent, index, medianKey, medianValues, newNode, t.entries, t.children,
           LowerPart(t.children[index], degree), UpperPart(t.children[index], degree, newNode));
    }

    method SplitChild(parent: Node, index: nat, ghost t: NodeTree) returns (ghost t': NodeTree)
      requires 1 <= degree && parent == t.node && Matches(t, degree) && Distinct(t)
      requires |t.children| == |t.entries| + 1 && index < |t.children|
      requires |t.children[index].entries| == 2 * degree
      requires t.children[index].children != [] ==> degree < |t.children[index].children|
      modifies parent, t.children[index].node
      ensures t'.node == parent && Matches(t', degree) && Distinct(t')
      ensures forall n :: n in Footprint(t') ==> n in Footprint(t) || fresh(n)
      ensures t'.children != []
      ensures Erase(t') == BTreeModel.SplitChild(Erase(t), index, degree)
    {
      ghost var ts, c := t.children, t.children[index];
      MatchesFocus(parent.children, ts, index, degree);
      DistinctFocus(ts, index);
      var child := parent.children[index];
      assert allocated(FootprintAll(ts[..index])) && allocated(FootprintAll(ts[index + 1..])) && allocated(Footprint(c));
      var newNode, medianKey, medianValues := SplitNode(child, c);
      t' := LinkHalves(parent, index, medianKey, medianValues, newNode, t);
    }

    // btree.go, lines 94 to 102: splice the entry into a leaf
    method InsertLeaf(node: Node, key: Key, value: Value, ghost t: NodeTree, ghost h: nat, ghost root: bool)
      requires node == t.node && Matches(t, degree) && Holds(t, degree, h, root) && node.leaf
      modifies node
      ensures Matches(NodeTree(node, InsertAt(t.entries, Position(t.entries, key), Entry(key, [value])), []), degree)
    {
      HoldsInner(t, degree, h, root);
      var pos := InsertPosition(node.keys, key, t.entries);
      ZipInsert(node.keys, node.values, pos, key, [value]);
      node.keys := InsertAt(node.keys, pos, key);
      node.values := InsertAt(node.values, pos, [value]);
    }

    // btree.go, lines 104 to 117: choose the child to go on with and split it if it is full.
    // The position is at most the number of keys, so the clamp of lines 108-110 and
    // the extra child of lines 119-121 never apply.
    method Descend(node: Node, key: Key, ghost t: NodeTree, ghost h: nat, ghost root: bool)
      returns (pos: nat, ghost t': NodeTree)
      requires node == t.node && Matches(t, degree) && Holds(t, degree, h, root)
      requires !node.leaf && |t.entries| < 2 * degree
      modifies Footprint(t)
      ensures t'.node == node && Matches(t', degree) && Holds(t', degree, h, root)
      ensures forall n :: n in Footprint(t') ==> n in Footprint(t) || fresh(n)
      ensures Erase(t').Inner? && (Erase(t'), pos) == BTreeMixed.Descend(Erase(t), degree, key)
    {
      assert allocated(Footprint(t));
      HoldsInner(t, degree, h, root);
      DescendHasRoom(Erase(t), degree, h, root, key);
      pos := InsertPosition(node.keys, key, t.entries);
      MatchesFocus(node.children, t.children, pos, degree);
      t' := t;
      if node.children[pos].IsFull() {
        ChildCanSplit(t, degree, h, root, pos);
        t' := SplitChild(node, pos, t);
        if Compare(key, node.keys[pos]) > 0 {
          pos := pos + 1;
        }
      }
    }

    method InsertNonFull(node: Node, key: Key, value: Value, ghost t: NodeTree, ghost h: nat, ghost root: bool)
      returns (ghost t': NodeTree)
      requires node == t.node && Matches(t, degree) && Holds(t, degree, h, root) && |t.entries| < 2 * degree
      modifies Footprint(t)
      ensures t'.node == node && Matches(t', degree) && Distinct(t')
      ensures forall n :: n in Footprint(t') ==> n in Footprint(t) || fresh(n)
      ensures Erase(t') == InsertAny(Erase(t), degree, h, root, Entry(key, [value]))
      decreases h, 1
    {
      HoldsInner(t, degree, h, root);
      if node.leaf {
        InsertLeaf(node, key, value, t, h, root);
        t' := NodeTree(node, InsertAt(t.entries, Position(t.entries, key), Entry(key, [value])), []);
      } else {
        var pos, t1 := Descend(node, key, t, h, root);
        RoomBelow(t, t1, degree, h, root, key);
        t' := InsertBelow(node, pos, key, value, t1, h, root);
      }
    }

    // btree.go, line 123: go on in the chosen child
    method InsertBelow(node: Node, pos: nat, key: Key, value: Value,
                       ghost t: NodeTree, ghost h: nat, ghost root: bool)
      returns (ghost t': NodeTree)
      requires node == t.node && Matches(t, degree) && Holds(t, degree, h, root)
      requires h > 0 && pos < |t.children| && |t.children[pos].entries| < 2 * degree
      modifies Footprint(t)
      ensures t'.node == node && Matches(t', degree) && Distinct(t')
      ensures forall n :: n in Footprint(t') ==> n in Footprint(t) || fresh(n)
      ensures Erase(t').Inner? && Erase(t').entries == t.entries
      ensures Shape(Erase(t.children[pos]), degree, h - 1, false)
      ensures Erase(t').children == EraseAll(t.children)[pos :=
        InsertAny(Erase(t.children[pos]), degree, h - 1, false, Entry(key, [value]))]
      decreases h, 0
    {
      ghost var ts, c := t.children, t.children[pos];
      HoldsChild(t, degree, h, root, pos);
      MatchesFocus(node.children, ts, pos, degree);
      DistinctFocus(ts, pos);
      assert allocated(FootprintAll(ts[..pos])) && allocated(FootprintAll(ts[pos + 1..])) && allocated(Footprint(t));
      ghost var c' := InsertNonFull(node.children[pos], key, value, c, h - 1, false);
      t' := ReplaceChildNodes(t, pos, c');
      ReplaceMatches(node.children, ts, pos, c', degree);
      ReplaceErase(ts, pos, c');
      ReplaceDistinct(t, pos, c', Footprint(c') - Footprint(c));
    }

    // btree.go, lines 80 to 85: a full root moves under a new root and is split
    method GrowRoot(node: Node, ghost t: NodeTree, ghost h: nat) returns (newRoot: Node, ghost t': NodeTree)
      requires node == t.node && Matches(t, degree) && Holds(t, degree, h, true)
      requires |t.entries| == 2 * degree
      modifies node
      ensures newRoot == t'.node && Matches(t', degree) && Holds(t', degree, h + 1, true)
      ensures |t'.entries| < 2 * degree && Erase(t') == BTreeModel.GrowRoot(Erase(t), degree)
      ensures forall n :: n in Footprint(t') ==> n in Footprint(t) || fresh(n)
    {
      assert allocated(Footprint(t));
      HoldsInner(t, degree, h, true);
      newRoot := new Node(degree, false);
      newRoot.children := newRoot.children + [node];
      AboveRoot(newRoot, t);
      One(node, t, degree);
      assert newRoot.children == [node];
      t' := SplitChild(newRoot, 0, NodeTree(newRoot, [], [t]));
      HoldsGrown(t, t', degree, h);
    }

    // btree.go, lines 78 to 86: a root with room, growing the tree if there is none
    method RoomyRoot() returns (node: Node, ghost t: NodeTree, ghost h: nat)
      requires Valid()
      modifies this`root, root
      ensures root == node == t.node && Matches(t, degree) && Holds(t, degree, h, true)
      ensures |t.entries| < 2 * degree && (Erase(t), h) == Roomy(old(Erase(nodes)), degree, old(height))
      ensures forall n :: n in Footprint(t) ==> n in Footprint(nodes) || fresh(n)
    {
      node, t, h := root, nodes, height;
      HoldsInner(t, degree, h, true);
      if node.IsFull() {
        node, t := GrowRoot(node, t, h);
        h := h + 1;
        root := node;
      }
    }

    // btree.go, line 89: recording the tree the nodes now form
    method Count(ghost t: NodeTree, ghost h: nat)
      requires root == t.node && Matches(t, degree) && Holds(t, degree, h, true)
      requires size + 1 == |InOrder(Erase(t))|
      modifies this
      ensures Valid() && nodes == t && height == h && size == old(size) + 1
    {
      size, nodes, height := size + 1, t, h;
    }

    // btree.go, line 88: the insertion below a root with room
    method InsertBelowRoot(node: Node, key: Key, value: Value, ghost t: NodeTree, ghost h: nat)
      returns (ghost t': NodeTree)
      requires node == t.node && Matches(t, degree) && Holds(t, degree, h, true) && |t.entries| < 2 * degree
      modifies Footprint(t)
      ensures t'.node == node && Matches(t', degree) && Holds(t', degree, h, true)
      ensures Erase(t') == InsertAny(Erase(t), degree, h, true, Entry(key, [value]))
      ensures forall n :: n in Footprint(t') ==> n in Footprint(t) || fresh(n)
    {
      t' := InsertNonFull(node, key, value, t, h, true);
      HoldsInserted(t, t', degree, h, Entry(key, [value]));
    }

    // btree.go, lines 78 to 88
    method InsertAtRoot(key: Key, value: Value) returns (ghost t: NodeTree, ghost h: nat)
      requires Valid()
      modifies this`root, Footprint(nodes)
      ensures root == t.node && Matches(t, degree) && Holds(t, degree, h, true)
      ensures (Erase(t), h) == InsertRoot(old(Erase(nodes)), degree, old(height), Entry(key, [value]))
      ensures |InOrder(Erase(t))| == size + 1
      ensures forall n :: n in Footprint(t) ==> n in old(Footprint(nodes)) || fresh(n)
    {
      ghost var tree, before := Erase(nodes), height;
      var node, grown, k := RoomyRoot();
      GrownCorrect(tree, before, degree, Erase(grown), k, Entry(key, [value]));
      h := k;
      t := InsertBelowRoot(node, key, value, grown, k);
    }

    // btree.go, lines 78 to 89: what the insertion makes of the tree
    method InsertIntoTree(key: Key, value: Value)
      requires Valid()
      modifies this, Footprint(nodes)
      ensures Valid() && size == old(size) + 1
      ensures (Erase(nodes), height) == InsertRoot(old(Erase(nodes)), degree, old(height), Entry(key, [value]))
      ensures forall n :: n in Footprint(nodes) ==> n in old(Footprint(nodes)) || fresh(n)
    {
      ghost var t, h := InsertAtRoot(key, value);
      Count(t, h);
    }

    /** For keys of any types one entry more is stored, and none is lost; among ascending keys
        of one supported type it is placed before the first that is not smaller, so that they
        stay ascending. */
    method Insert(key: Key, value: Value)
      requires Valid()
      modifies this, Footprint(nodes)
      ensures Valid() && size == old(size) + 1
      ensures (Erase(nodes), height) == InsertRoot(old(Erase(nodes)), degree, old(height), Entry(key, [value]))
      ensures multiset(Contents()) == old(multiset(Contents())) + multiset{Entry(key, [value])}
      ensures PlacedInOrder(old(Contents()), Contents(), Entry(key, [value]))
      ensures forall n :: n in Footprint(nodes) ==> n in old(Footprint(nodes)) || fresh(n)
    {
      InsertRootCorrect(Erase(nodes), degree, height, Entry(key, [value]));
      InsertRootOrdered(Erase(nodes), degree, height, Entry(key, [value]));
      InsertIntoTree(key, value);
    }

    /** The height is logarithmic in the number of entries. */
    lemma HeightIsLogarithmic()
      requires Valid() && size > 0
      ensures size >= 2 * Power(degree, height) - 1
    {
      HeightBound(Erase(nodes), degree, height);
    }

    // btree.go, lines 158 to 169: what the search does at one node
    method LookAt(node: Node, key: Key, ghost t: NodeTree, ghost h: nat, ghost root: bool)
      returns (idx: nat, stops: bool)
      requires node == t.node && Matches(t, degree) && Holds(t, degree, h, root)
      ensures stops ==>
        && idx < |node.keys| == |node.values|
        && Found(t, degree, h, root, key) == Some(Entry(node.keys[idx], node.values[idx]))
      ensures !stops && node.leaf ==> Found(t, degree, h, root, key) == None
      ensures !stops && !node.leaf ==>
        && h > 0 && idx < |t.children| == |node.children| && node.children[idx] == t.children[idx].node
        && Matches(t.children[idx], degree) && Holds(t.children[idx], degree, h - 1, false)
        && Found(t.children[idx], degree, h - 1, false, key) == Found(t, degree, h, root, key)
    {
      assert allocated(Footprint(t));
      HoldsInner(t, degree, h, root);
      idx := SearchPosition(node.keys, key, t.entries);
      stops := idx < |node.keys| && Compare(key, node.keys[idx]) == 0;
      if stops {
        SearchStops(t, degree, h, root, key, idx);
      } else {
        SearchGoesOn(t, degree, h, root, key, idx);
      }
    }

    // btree.go, lines 156 to 171: the way down the tree
    method SearchTree(key: Key) returns (r: Option<seq<Value>>, ghost visited: nat)
      requires Valid()
      ensures r == ValuesOf(Found(nodes, degree, height, true, key))
      ensures 1 <= visited <= height + 1
    {
      var node := root;
      ghost var t, h, isRoot := nodes, height, true;
      ghost var sought := Found(nodes, degree, height, true, key);
      visited := 0;
      while true
        invariant node == t.node && Matches(t, degree) && Holds(t, degree, h, isRoot)
        invariant visited + h == height
        invariant Found(t, degree, h, isRoot, key) == sought
        decreases h
      {
        visited := visited + 1;
        var idx, stops := LookAt(node, key, t, h, isRoot);
        if stops {
          return Some(node.values[idx]), visited;
        }
        if node.leaf {
          return None, visited;
        }
        node := node.children[idx];
        t, h, isRoot := t.children[idx], h - 1, false;
      }
    }

    /** Stops at one entry at most, visiting one node per level; among keys of one supported
        type it finds an entry with the given key whenever there is one. */
    method Search(key: Key) returns (r: Option<seq<Value>>, ghost visited: nat)
      requires Valid()
      ensures r == ValuesOf(SearchEntry(Erase(nodes), degree, height, true, key))
      ensures FoundInOrder(Contents(), key, r)
      ensures 1 <= visited <= height + 1
    {
      SearchOrdered(Erase(nodes), degree, height, key);
      r, visited := SearchTree(key);
    }
  }
}

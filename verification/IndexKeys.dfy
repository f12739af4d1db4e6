/**
 The dynamically typed keys of the B-tree index and their comparison.

 The comparison answers 0 whenever its arguments have different or unsupported types,
 so it orders keys only within one kind; IsTotalOrder and MixedKindsAreNotOrdered say
 exactly that.
 */
module IndexKeys {
  import opened Fnv

  datatype Kind = StringKind | Int64Kind | Float64Kind | UnsupportedKind

  datatype Key =
    | StringKey(text: Bytes)
    | Int64Key(int64: int)
    | Float64Key(float64: real)
    | UnsupportedKey(tag: int)
  {
    function Kind(): Kind {
      match this
      case StringKey(_) => StringKind
      case Int64Key(_) => Int64Kind
      case Float64Key(_) => Float64Kind
      case UnsupportedKey(_) => UnsupportedKind
    }
  }

  // Byte-wise lexicographic order on strings
  predicate TextLess(a: Bytes, b: Bytes) {
    b != [] && (a == [] || a[0] < b[0] || (a[0] == b[0] && TextLess(a[1..], b[1..])))
  }

  function Compare(a: Key, b: Key): int {
    match (a, b)
    case (StringKey(x), StringKey(y)) =>
      if TextLess(x, y) then -1 else if TextLess(y, x) then 1 else 0
    case (Int64Key(x), Int64Key(y)) =>
      if x < y then -1 else if x > y then 1 else 0
    case (Float64Key(x), Float64Key(y)) =>
      if x < y then -1 else if x > y then 1 else 0
    case _ => 0
  }

  lemma {:induction false} TextLessAsymmetric(a: Bytes, b: Bytes)
    ensures !(TextLess(a, b) && TextLess(b, a))
    decreases a
  {
    if a != [] && b != [] {
      TextLessAsymmetric(a[1..], b[1..]);
    }
  }

  lemma {:induction false} TextLessTotal(a: Bytes, b: Bytes)
    ensures TextLess(a, b) || TextLess(b, a) || a == b
    decreases a
  {
    if a != [] && b != [] && a[0] == b[0] {
      TextLessTotal(a[1..], b[1..]);
      assert a == [a[0]] + a[1..] && b == [b[0]] + b[1..];
    }
  }

  lemma {:induction false} TextLessTransitive(a: Bytes, b: Bytes, c: Bytes)
    requires TextLess(a, b) && TextLess(b, c)
    ensures TextLess(a, c)
    decreases a
  {
    if a != [] && a[0] == b[0] == c[0] {
      TextLessTransitive(a[1..], b[1..], c[1..]);
    }
  }

  // Swapping the arguments negates the comparison, also across kinds
  lemma CompareFlips(a: Key, b: Key)
    ensures Compare(a, b) == -Compare(b, a)
  {
    if a.StringKey? && b.StringKey? {
      TextLessAsymmetric(a.text, b.text);
    }
  }

  lemma ComparesEqual(a: Key, b: Key)
    requires a.Kind() == b.Kind() != UnsupportedKind
    ensures Compare(a, b) == 0 <==> a == b
  {
    if a.StringKey? {
      TextLessTotal(a.text, b.text);
      TextLessAsymmetric(a.text, b.text);
    }
  }

  lemma CompareTransitive(a: Key, b: Key, c: Key)
    requires a.Kind() == b.Kind() == c.Kind() != UnsupportedKind
    requires Compare(a, b) <= 0 && Compare(b, c) <= 0
    ensures Compare(a, c) <= 0
    ensures Compare(a, b) < 0 || Compare(b, c) < 0 ==> Compare(a, c) < 0
  {
    if a.StringKey? {
      TextLessTotal(a.text, b.text);
      TextLessTotal(b.text, c.text);
      TextLessTotal(a.text, c.text);
      if TextLess(a.text, b.text) && TextLess(b.text, c.text) {
        TextLessTransitive(a.text, b.text, c.text);
      }
    }
  }

  // ---------- The order, said without the comparison ----------

  // The strings agree on their first k bytes, and there a ends or has the smaller byte
  ghost predicate BelowAt(a: Bytes, b: Bytes, k: nat) {
    k <= |a| && k < |b| && (forall i :: 0 <= i < k ==> a[i] == b[i]) && (k == |a| || a[k] < b[k])
  }

  ghost predicate BytesBelow(a: Bytes, b: Bytes) {
    exists k: nat :: BelowAt(a, b, k)
  }

  lemma BelowLater(a: Bytes, b: Bytes, k: nat)
    requires a != [] && b != [] && a[0] == b[0]
    ensures BelowAt(a, b, k + 1) <==> BelowAt(a[1..], b[1..], k)
    ensures !BelowAt(a, b, 0)
  {
    if BelowAt(a, b, k + 1) {
      forall i | 0 <= i < k ensures a[1..][i] == b[1..][i] {
        assert a[i + 1] == b[i + 1];
      }
    }
  }

  lemma BelowFirst(a: Bytes, b: Bytes)
    requires a == [] || b == [] || a[0] != b[0]
    ensures BytesBelow(a, b) <==> b != [] && (a == [] || a[0] < b[0])
  {
    assert b != [] && (a == [] || a[0] < b[0]) ==> BelowAt(a, b, 0);
  }

  lemma {:induction false} TextLessIsByteOrder(a: Bytes, b: Bytes)
    ensures TextLess(a, b) <==> BytesBelow(a, b)
    decreases a
  {
    if a == [] || b == [] || a[0] != b[0] {
      BelowFirst(a, b);
    } else {
      TextLessIsByteOrder(a[1..], b[1..]);
      BelowLater(a, b, 0);
      if k: nat :| BelowAt(a[1..], b[1..], k) {
        BelowLater(a, b, k);
      }
      if k: nat :| BelowAt(a, b, k) {
        assert k > 0;
        BelowLater(a, b, k - 1);
      }
    }
  }

  /** Strings in the order of their bytes, a prefix first; numbers by size; and nothing across
      types. */
  ghost predicate KeyBelow(a: Key, b: Key) {
    || (a.StringKey? && b.StringKey? && BytesBelow(a.text, b.text))
    || (a.Int64Key? && b.Int64Key? && a.int64 < b.int64)
    || (a.Float64Key? && b.Float64Key? && a.float64 < b.float64)
  }

  /** The comparison is negative exactly for strings in byte order and numbers in ascending
      order, positive exactly the other way round, and 0 otherwise. */
  lemma ComparesExactly(a: Key, b: Key)
    ensures Compare(a, b) == if KeyBelow(a, b) then -1 else if KeyBelow(b, a) then 1 else 0
  {
    if a.StringKey? && b.StringKey? {
      TextLessIsByteOrder(a.text, b.text);
      TextLessIsByteOrder(b.text, a.text);
    }
  }

  /** Within one supported kind the comparison is the total order of bytes or numbers, and its
      zeroes are equality. */
  lemma IsTotalOrder(a: Key, b: Key, c: Key)
    requires a.Kind() == b.Kind() == c.Kind() != UnsupportedKind
    ensures Compare(a, b) < 0 <==> KeyBelow(a, b)
    ensures Compare(a, b) == 0 <==> a == b
    ensures Compare(a, b) == -Compare(b, a)
    ensures Compare(a, b) <= 0 && Compare(b, c) <= 0 ==> Compare(a, c) <= 0
    ensures Compare(a, b) <= 0 && Compare(b, c) < 0 ==> Compare(a, c) < 0
    ensures Compare(a, b) < 0 && Compare(b, c) <= 0 ==> Compare(a, c) < 0
  {
    ComparesExactly(a, b);
    ComparesEqual(a, b);
    CompareFlips(a, b);
    if Compare(a, b) <= 0 && Compare(b, c) <= 0 {
      CompareTransitive(a, b, c);
    }
  }

  /** Across kinds it is not even transitive: a key of another kind equals both of two different keys. */
  lemma MixedKindsAreNotOrdered(i: int, j: int, s: Bytes)
    requires i < j
    ensures Compare(Int64Key(j), StringKey(s)) == 0
    ensures Compare(StringKey(s), Int64Key(i)) == 0
    ensures Compare(Int64Key(j), Int64Key(i)) > 0
  {}
}

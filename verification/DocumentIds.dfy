/**
 Generated document ids, collection_time_number, and the shard an id is routed to.

 The id can be read back from the right although collection names may contain
 underscores, so it determines its collection. Ten ids whose numbers share all digits
 but the last go to ten different shards.
 */
module DocumentIds {
  import opened Fnv
  import opened Wrappers

  const COLON: Byte := 0x3A
  const UNDERSCORE: Byte := 0x5F
  const MINUS: Byte := 0x2D
  const ZERO: Byte := 0x30
  const SHARD_COUNT: nat := 16

  // ---------- Rendering ----------

  function Digits(n: nat): Bytes {
    if n < 10 then [ZERO + n] else Digits(n / 10) + [ZERO + n % 10]
  }

  function Decimal(n: int): Bytes {
    if n < 0 then [MINUS] + Digits(-n) else Digits(n)
  }

  function MakeId(collection: Bytes, time: int, number: nat): Bytes {
    collection + [UNDERSCORE] + Decimal(time) + [UNDERSCORE] + Decimal(number)
  }

  // ---------- Reading back ----------

  // Cut at the last underscore
  function SplitLast(s: Bytes): Option<(Bytes, Bytes)> {
    if s == [] then None
    else
      var last := |s| - 1;
      if s[last] == UNDERSCORE then Some((s[..last], []))
      else match SplitLast(s[..last])
        case None => None
        case Some((p, q)) => Some((p, q + [s[last]]))
  }

  function DigitsValue(s: Bytes): int {
    if s == [] then 0 else 10 * DigitsValue(s[..|s| - 1]) + (s[|s| - 1] - ZERO)
  }

  function DecimalValue(s: Bytes): int {
    if s != [] && s[0] == MINUS then -DigitsValue(s[1..]) else DigitsValue(s)
  }

  function ParseId(id: Bytes): Option<(Bytes, int, int)> {
    match SplitLast(id)
    case None => None
    case Some((rest, number)) =>
      match SplitLast(rest)
      case None => None
      case Some((collection, time)) => Some((collection, DecimalValue(time), DecimalValue(number)))
  }

  lemma {:induction false} DigitsAreDigits(n: nat)
    ensures Digits(n) != [] && forall b :: b in Digits(n) ==> ZERO <= b <= ZERO + 9
    decreases n
  {
    if n >= 10 {
      DigitsAreDigits(n / 10);
    }
  }

  lemma {:induction false} DigitsReadBack(n: nat)
    ensures DigitsValue(Digits(n)) == n
    decreases n
  {
    var s := Digits(n);
    if n < 10 {
      assert s[..|s| - 1] == [];
    } else {
      assert s[..|s| - 1] == Digits(n / 10);
      DigitsReadBack(n / 10);
    }
  }

  lemma DecimalReadBack(n: int)
    ensures DecimalValue(Decimal(n)) == n
    ensures UNDERSCORE !in Decimal(n)
  {
    var m := if n < 0 then -n else n;
    DigitsAreDigits(m);
    DigitsReadBack(m);
    assert n >= 0 ==> Decimal(n)[0] in Digits(m);
    assert n < 0 ==> Decimal(n)[1..] == Digits(m);
  }

  lemma {:induction false} SplitLastFinds(p: Bytes, q: Bytes)
    requires UNDERSCORE !in q
    ensures SplitLast(p + [UNDERSCORE] + q) == Some((p, q))
    decreases q
  {
    var s := p + [UNDERSCORE] + q;
    if q == [] {
      assert s[..|s| - 1] == p;
    } else {
      var q' := q[..|q| - 1];
      assert s[..|s| - 1] == p + [UNDERSCORE] + q';
      SplitLastFinds(p, q');
      assert q' + [q[|q| - 1]] == q;
    }
  }

  // The number without its last i decimal digits
  ghost function WithoutLast(n: nat, i: nat): nat {
    if i == 0 then n else WithoutLast(n / 10, i - 1)
  }

  // Decimal notation: ASCII digits, the lowest one last, and no leading zero
  ghost predicate IsDecimal(s: Bytes, n: nat) {
    && s != [] && WithoutLast(n, |s|) == 0 && (|s| > 1 ==> s[0] != 0x30)
    && forall i :: 0 <= i < |s| ==> s[|s| - 1 - i] == 0x30 + WithoutLast(n, i) % 10
  }

  lemma {:induction false} DigitsAreDecimal(n: nat)
    ensures IsDecimal(Digits(n), n)
    decreases n
  {
    var s := Digits(n);
    if n < 10 {
      assert WithoutLast(n, 1) == 0 by {
        assert WithoutLast(0, 0) == 0;
      }
    } else {
      var t := Digits(n / 10);
      DigitsAreDecimal(n / 10);
      assert WithoutLast(n, |s|) == WithoutLast(n / 10, |t|);
      assert |t| == 1 ==> WithoutLast(n / 10, 1) == WithoutLast(n / 10 / 10, 0) == n / 10 / 10;
      assert s[0] == t[0];
      forall i | 0 <= i < |s| ensures s[|s| - 1 - i] == 0x30 + WithoutLast(n, i) % 10 {
        if i > 0 {
          assert s[|s| - 1 - i] == t[|t| - 1 - (i - 1)];
        }
      }
    }
  }

  /** The bytes of an id: the collection, the time and the number in decimal, with underscores
      between them; and it is routed by the hash of the collection, a colon and the id. */
  lemma IdBytes(collection: Bytes, time: int, number: nat) returns (t: Bytes, n: Bytes)
    ensures IsDecimal(t, if time < 0 then -time else time) && IsDecimal(n, number)
    ensures MakeId(collection, time, number)
         == collection + [0x5F] + (if time < 0 then [0x2D] + t else t) + [0x5F] + n
    ensures var id := MakeId(collection, time, number);
      GetShard(id, collection) == Hash(collection + [0x3A] + id) % 16
  {
    t, n := Digits(if time < 0 then -time else time), Digits(number);
    DigitsAreDecimal(if time < 0 then -time else time);
    DigitsAreDecimal(number);
  }

  /** An id can be read back into the collection, time and number it was made of. */
  lemma IdReadsBack(collection: Bytes, time: int, number: nat)
    ensures ParseId(MakeId(collection, time, number)) == Some((collection, time, number))
  {
    DecimalReadBack(time);
    DecimalReadBack(number);
    SplitLastFinds(collection + [UNDERSCORE] + Decimal(time), Decimal(number));
    SplitLastFinds(collection, Decimal(time));
  }

  /** Different parts make different ids. */
  lemma IdsDiffer(c: Bytes, t: int, n: nat, c': Bytes, t': int, n': nat)
    requires MakeId(c, t, n) == MakeId(c', t', n')
    ensures c == c' && t == t' && n == n'
  {
    IdReadsBack(c, t, n);
    IdReadsBack(c', t', n');
  }

  // ---------- Routing ----------

  // The byte string hashed for an id
  function RoutingKey(id: Bytes, collection: Bytes): Bytes {
    collection + [COLON] + id
  }

  function GetShard(id: Bytes, collection: Bytes): (shard: nat)
    ensures shard < SHARD_COUNT
  {
    Hash(RoutingKey(id, collection)) % SHARD_COUNT
  }

  // Everything of an id but the last digit of its number
  ghost function Stem(collection: Bytes, time: int, tens: nat): Bytes {
    collection + [UNDERSCORE] + Decimal(time) + [UNDERSCORE] + (if tens == 0 then [] else Digits(tens))
  }

  lemma LastDigit(collection: Bytes, time: int, tens: nat, d: nat)
    requires d < 10
    ensures MakeId(collection, time, 10 * tens + d) == Stem(collection, time, tens) + [ZERO + d]
  {
    var n := 10 * tens + d;
    assert n / 10 == tens && n % 10 == d;
    assert Decimal(n) == (if tens == 0 then [] else Digits(tens)) + [ZERO + d];
  }

  lemma KeyOfLastDigit(collection: Bytes, time: int, tens: nat, d: nat)
    requires d < 10
    ensures RoutingKey(MakeId(collection, time, 10 * tens + d), collection)
         == RoutingKey(Stem(collection, time, tens), collection) + [ZERO + d] + []
  {
    LastDigit(collection, time, tens, d);
  }

  lemma DigitsDiffer(i: nat, j: nat)
    requires i < 10 && j < 10 && i != j
    ensures (ZERO + i) % Pow2(4) != (ZERO + j) % Pow2(4)
  {
    assert Pow2(4) == 16;
  }

  /** Two ids whose numbers differ only in the last digit go to different shards. */
  lemma LastDigitSpreads(collection: Bytes, time: int, tens: nat, d: nat, e: nat)
    requires d < 10 && e < 10 && d != e
    ensures GetShard(MakeId(collection, time, 10 * tens + d), collection)
         != GetShard(MakeId(collection, time, 10 * tens + e), collection)
  {
    KeyOfLastDigit(collection, time, tens, d);
    KeyOfLastDigit(collection, time, tens, e);
    DigitsDiffer(d, e);
    Pow2Values();
    OneByteApart(RoutingKey(Stem(collection, time, tens), collection), ZERO + d, ZERO + e, [], 4);
  }
}

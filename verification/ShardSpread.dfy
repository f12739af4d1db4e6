/**
 Every shard can be reached: among any hundred ids of a collection whose numbers share all
 digits but the last two, some id is routed to any given shard.
 */
module ShardSpread {
  import opened Fnv
  import opened DocumentIds
  import opened Pigeonhole
  import opened Wrappers

  // The hash state before the last digit of the numbers from 10 * tens on
  ghost function StateBefore(collection: Bytes, time: int, tens: nat): nat {
    Hash(RoutingKey(Stem(collection, time, tens), collection))
  }

  lemma HashOneMore(s: Bytes, b: Byte)
    ensures Hash(s + [b]) == Step(Hash(s), b)
  {
    HashFromConcat(OFFSET_BASIS, s, [b]);
    assert [b][1..] == [];
    assert HashFrom(Hash(s), [b]) == HashFrom(Step(Hash(s), b), []);
  }

  lemma ShardOfLastDigit(collection: Bytes, time: int, tens: nat, d: nat)
    requires d < 10
    ensures GetShard(MakeId(collection, time, 10 * tens + d), collection)
         == Step(StateBefore(collection, time, tens), ZERO + d) % 16
  {
    KeyOfLastDigit(collection, time, tens, d);
    var key := RoutingKey(Stem(collection, time, tens), collection);
    assert key + [ZERO + d] + [] == key + [ZERO + d];
    HashOneMore(key, ZERO + d);
  }

  lemma StateOfDigit(collection: Bytes, time: int, hundreds: nat, c: nat)
    requires hundreds > 0 && c < 10
    ensures StateBefore(collection, time, 10 * hundreds + c)
         == Step(StateBefore(collection, time, hundreds), ZERO + c)
  {
    var tens := 10 * hundreds + c;
    assert tens / 10 == hundreds && tens % 10 == c;
    var key := RoutingKey(Stem(collection, time, hundreds), collection);
    assert Digits(tens) == Digits(hundreds) + [ZERO + c];
    assert RoutingKey(Stem(collection, time, tens), collection) == key + [ZERO + c];
    HashOneMore(key, ZERO + c);
  }

  ghost function AfterDigit(g: nat, c: nat): nat
    requires c < 10
  {
    Step(g, ZERO + c) % Pow2(4)
  }

  ghost function BeforeDigit(target: nat, d: nat): nat
    requires d < 10
  {
    StateReaching(11 * target % 16, ZERO + d, 4)
  }

  // The low four bits after each digit
  ghost function AfterDigits(g: nat): (s: seq<nat>)
    ensures |s| == 10 && forall c :: 0 <= c < 10 ==> s[c] == AfterDigit(g, c)
  {
    seq(10, c requires 0 <= c < 10 => AfterDigit(g, c))
  }

  // The low four bits that each digit turns into the target
  ghost function BeforeDigits(target: nat): (s: seq<nat>)
    ensures |s| == 10 && forall d :: 0 <= d < 10 ==> s[d] == BeforeDigit(target, d)
  {
    seq(10, d requires 0 <= d < 10 => BeforeDigit(target, d))
  }

  lemma Reaches(target: nat, d: nat)
    requires target < 16 && d < 10
    ensures Pow2(4) == 16
    ensures BeforeDigits(target)[d] < 16
    ensures Step(BeforeDigits(target)[d], ZERO + d) % Pow2(4) == target
  {
    assert Pow2(4) == 16;
    StepReaches(11 * target % 16, ZERO + d, 4);
    ElevenUndoesPrime(target);
  }

  lemma AfterDigitsDiffer(g: nat)
    ensures AllDifferent(AfterDigits(g)) && forall x :: x in AfterDigits(g) ==> x < 16
  {
    assert Pow2(4) == 16;
    var s := AfterDigits(g);
    forall i, j | 0 <= i < j < |s| ensures s[i] != s[j] {
      DigitsDiffer(i, j);
      if s[i] == s[j] {
        StepInjective(g, g, ZERO + i, ZERO + j, 4);
      }
    }
  }

  lemma BeforeDigitsDiffer(target: nat)
    requires target < 16
    ensures AllDifferent(BeforeDigits(target)) && forall x :: x in BeforeDigits(target) ==> x < 16
  {
    var s := BeforeDigits(target);
    forall i, j | 0 <= i < j < |s| ensures s[i] != s[j] {
      DigitsDiffer(i, j);
      Reaches(target, i);
      Reaches(target, j);
      if s[i] == s[j] {
        StepInjective(s[i], s[j], ZERO + i, ZERO + j, 4);
      }
    }
    forall x | x in s ensures x < 16 {
      var d :| 0 <= d < |s| && s[d] == x;
      Reaches(target, d);
    }
  }

  lemma DigitsMeet(g: nat, target: nat, c: nat, d: nat)
    requires target < 16 && c < 10 && d < 10 && AfterDigits(g)[c] == BeforeDigits(target)[d]
    ensures Step(Step(g, ZERO + c), ZERO + d) % 16 == target
  {
    Reaches(target, d);
    SameStep(Step(g, ZERO + c), BeforeDigits(target)[d], ZERO + d);
  }

  // A state acts like its low four bits
  lemma SameStep(h: nat, low: nat, b: Byte)
    requires low == h % Pow2(4)
    ensures Step(h, b) % 16 == Step(low, b) % Pow2(4)
  {
    assert Pow2(4) == 16;
    assert low % Pow2(4) == low;
    StepCongruent(h, low, b, 4);
  }

  /** Two digits lead from every state to every shard: ten states can follow the first, ten
      can precede the second, and there are only sixteen. */
  lemma TwoDigitsReach(g: nat, target: nat) returns (c: nat, d: nat)
    requires target < 16
    ensures c < 10 && d < 10 && Step(Step(g, ZERO + c), ZERO + d) % 16 == target
  {
    AfterDigitsDiffer(g);
    BeforeDigitsDiffer(target);
    c, d := CommonValue(AfterDigits(g), BeforeDigits(target), 16);
    DigitsMeet(g, target, c, d);
  }

  /** Every shard gets some document out of any hundred, from number 100 on. */
  lemma EveryShardIsHit(collection: Bytes, time: int, hundreds: nat, shard: nat) returns (number: nat)
    requires hundreds > 0 && shard < SHARD_COUNT
    ensures 100 * hundreds <= number < 100 * hundreds + 100
    ensures GetShard(MakeId(collection, time, number), collection) == shard
  {
    var c, d := TwoDigitsReach(StateBefore(collection, time, hundreds), shard);
    StateOfDigit(collection, time, hundreds, c);
    ShardOfLastDigit(collection, time, 10 * hundreds + c, d);
    number := 10 * (10 * hundreds + c) + d;
  }

  // ---------- The wrong collection ----------

  // The name with the low bit of its last byte changed
  function LowBitChanged(collection: Bytes): Bytes
    requires collection != []
  {
    var n := |collection| - 1;
    collection[..n] + [if collection[n] % 2 == 0 then collection[n] + 1 else collection[n] - 1]
  }

  /** For every id and every collection name there is another name that routes it elsewhere. */
  lemma OtherNameRoutesElsewhere(id: Bytes, collection: Bytes)
    requires collection != []
    ensures GetShard(id, LowBitChanged(collection)) != GetShard(id, collection)
  {
    var n := |collection| - 1;
    var a, b := collection[n], LowBitChanged(collection)[n];
    assert Pow2(4) == 16;
    assert a % 16 != b % 16;
    assert RoutingKey(id, collection) == collection[..n] + [a] + ([COLON] + id);
    assert RoutingKey(id, LowBitChanged(collection)) == collection[..n] + [b] + ([COLON] + id);
    OneByteApart(collection[..n], a, b, [COLON] + id, 4);
  }
}

/**
 The 32-bit FNV-1a hash, which routes documents to shards and client addresses to
 limiter tables, and the structure of its low bits.

 Both users reduce the hash modulo a power of two. One step of the hash, seen modulo
 2^k, depends only on the state and the byte modulo 2^k and is injective in each of
 them: exclusive-or with a fixed value is an involution, and the multiplier is odd.
 */
module Fnv {
  import opened Arithmetic

  type Byte = b: int | 0 <= b < 256
  type Bytes = seq<Byte>

  const WORD: nat := 0x1_0000_0000
  const OFFSET_BASIS: nat := 2166136261
  const PRIME: nat := 16777619
  // The multiplicative inverse of PRIME modulo 2^32
  const PRIME_INVERSE: nat := 899433627

  function Pow2(k: nat): (p: nat)
    ensures p >= 1
  {
    if k == 0 then 1 else 2 * Pow2(k - 1)
  }

  // Bitwise exclusive or on non-negative integers
  function Xor(x: nat, y: nat): nat {
    if x == 0 && y == 0 then 0 else (x + y) % 2 + 2 * Xor(x / 2, y / 2)
  }

  // One round of the hash: mix a byte into the state, multiply, wrap to 32 bits
  function Step(h: nat, b: Byte): (r: nat)
    ensures r < WORD
  {
    Xor(h, b) * PRIME % WORD
  }

  function HashFrom(h: nat, s: Bytes): nat
    decreases s
  {
    if s == [] then h else HashFrom(Step(h, s[0]), s[1..])
  }

  function Hash(s: Bytes): nat {
    HashFrom(OFFSET_BASIS, s)
  }

  // The hand-written loop of the rate limiter
  method FnvHash(s: Bytes) returns (h: nat)
    ensures h == Hash(s)
    ensures h < WORD
  {
    h := OFFSET_BASIS;
    var i := 0;
    while i < |s|
      invariant 0 <= i <= |s|
      invariant h < WORD
      invariant HashFrom(h, s[i..]) == Hash(s)
    {
      assert s[i..][1..] == s[i + 1..];
      h := Step(h, s[i]);
      i := i + 1;
    }
  }

  lemma {:induction false} HashFromConcat(h: nat, s: Bytes, t: Bytes)
    ensures HashFrom(h, s + t) == HashFrom(HashFrom(h, s), t)
    decreases s
  {
    if s == [] {
      assert s + t == t;
    } else {
      assert (s + t)[0] == s[0] && (s + t)[1..] == s[1..] + t;
      HashFromConcat(Step(h, s[0]), s[1..], t);
    }
  }

  lemma XorParts(x: nat, y: nat)
    ensures Xor(x, y) / 2 == Xor(x / 2, y / 2)
    ensures Xor(x, y) % 2 == (x + y) % 2
  {}

  lemma SameHalves(x: int, y: int)
    requires x / 2 == y / 2 && x % 2 == y % 2
    ensures x == y
  {}

  lemma ParityAdds(x: int, y: int, a: int, b: int)
    requires a % 2 == x % 2 && b % 2 == y % 2
    ensures (a + b) % 2 == (x + y) % 2
  {}

  lemma ParityCancels(x: int, y: int, z: int)
    requires z % 2 == (x + y) % 2
    ensures (z + y) % 2 == x % 2
  {}

  lemma {:induction false} XorInvolutive(x: nat, y: nat)
    ensures Xor(Xor(x, y), y) == x
    decreases x + y
  {
    if x != 0 || y != 0 {
      var z := Xor(x, y);
      XorParts(x, y);
      ParityCancels(x, y, z);
      var w := Xor(z, y);
      XorParts(z, y);
      XorInvolutive(x / 2, y / 2);
      SameHalves(w, x);
    }
  }

  lemma {:induction false} XorCommutes(x: nat, y: nat)
    ensures Xor(x, y) == Xor(y, x)
    decreases x + y
  {
    if x != 0 || y != 0 {
      XorCommutes(x / 2, y / 2);
    }
  }

  // Bit number k
  ghost function Bit(x: nat, k: nat): nat {
    if k == 0 then x % 2 else Bit(x / 2, k - 1)
  }

  lemma ParityDiffers(x: int, y: int)
    ensures (x + y) % 2 == if x % 2 == y % 2 then 0 else 1
  {}

  lemma {:induction false} XorBits(x: nat, y: nat, k: nat)
    ensures Bit(Xor(x, y), k) == if Bit(x, k) == Bit(y, k) then 0 else 1
    decreases k
  {
    var z := Xor(x, y);
    XorParts(x, y);
    if k == 0 {
      ParityDiffers(x, y);
    } else {
      XorBits(x / 2, y / 2, k - 1);
      assert z / 2 == Xor(x / 2, y / 2);
    }
  }

  lemma {:induction false} XorZero(x: nat)
    ensures Xor(x, 0) == x
    decreases x
  {
    if x > 0 {
      XorZero(x / 2);
    }
  }

  lemma JoinHalves(z: nat, w: nat, h: nat, r: nat)
    requires r <= h && h % 2 == r % 2
    requires z / 2 == h / 2 - r / 2 + w / 2 && z % 2 == w % 2
    ensures z == h - r + w
  {}

  lemma SameParity(h: nat, r: nat, b: nat)
    requires h % 2 == r % 2
    ensures (h + b) % 2 == (r + b) % 2
  {}

  lemma XorLowOne(h: nat, r: nat, b: nat)
    requires r <= h && h % 2 == r % 2
    requires Xor(h / 2, b / 2) == h / 2 - r / 2 + Xor(r / 2, b / 2)
    ensures Xor(h, b) == h - r + Xor(r, b)
  {
    XorParts(h, b);
    XorParts(r, b);
    SameParity(h, r, b);
    JoinHalves(Xor(h, b), Xor(r, b), h, r);
  }

  // The number made of the low k bits
  ghost function Low(h: nat, k: nat): (r: nat)
    ensures r <= h
  {
    if k == 0 then 0 else h % 2 + 2 * Low(h / 2, k - 1)
  }

  lemma {:induction false} LowIsRemainder(h: nat, k: nat)
    ensures Low(h, k) == h % Pow2(k)
    decreases k
  {
    if k > 0 {
      LowIsRemainder(h / 2, k - 1);
      ModHalves(h, Pow2(k - 1));
      SameHalves(Low(h, k), h % (2 * Pow2(k - 1)));
    }
  }

  // Exclusive or with a short number changes the low bits alone
  lemma {:induction false} XorLow(h: nat, b: nat, k: nat)
    requires b < Pow2(k)
    ensures Xor(h, b) == h - Low(h, k) + Xor(Low(h, k), b)
    decreases k
  {
    if k == 0 {
      XorZero(h);
      XorZero(0);
    } else {
      XorLow(h / 2, b / 2, k - 1);
      XorLowOne(h, Low(h, k), b);
    }
  }

  /** The hash of no bytes, and one round in closed form: the byte changes the low byte of the
      state alone, and the product is cut to 32 bits. */
  lemma RoundIs(h: nat, b: Byte)
    ensures Hash([]) == 0x811C9DC5
    ensures Step(h, b) == (h - h % 256 + Xor(h % 256, b)) * 0x0100_0193 % 0x1_0000_0000
  {
    Pow2Values();
    LowIsRemainder(h, 8);
    XorLow(h, b, 8);
  }

  lemma HashOfByte(b: Byte)
    ensures Hash([b]) == Step(OFFSET_BASIS, b)
  {
    assert [b][1..] == [];
    assert HashFrom(Step(OFFSET_BASIS, b), []) == Step(OFFSET_BASIS, b);
  }

  lemma RoundOf(h: nat, b: Byte, x: nat)
    requires Xor(h % 256, b) == x
    ensures Step(h, b) == (h - h % 256 + x) * 0x0100_0193 % 0x1_0000_0000
  {
    RoundIs(h, b);
  }

  /** The published hash of the letter a. */
  lemma HashOfLetter(a: Byte)
    requires a == 0x61
    ensures Hash([a]) == 0xE40C292C
  {
    var h := OFFSET_BASIS;
    assert h % 256 == 0xC5 && h - 0xC5 == 0x811C9D00;
    XorOfLetter();
    HashOfByte(a);
    RoundOf(h, a, 0xA4);
    DivisionUnique(0x811C9DA4 * 0x0100_0193, 0x1_0000_0000, 0x811D68, 0xE40C292C);
  }

  lemma XorOfLetter()
    ensures Xor(0xC5, 0x61) == 0xA4
  {
    assert Xor(0xC, 0x6) == 0xA;
    assert Xor(0x18, 0xC) == 0x14;
    assert Xor(0x31, 0x18) == 0x29;
    assert Xor(0x62, 0x30) == 0x52;
  }

  lemma ModHalves(x: nat, p: nat)
    requires p >= 1
    ensures x % (2 * p) % 2 == x % 2
    ensures x % (2 * p) / 2 == x / 2 % p
  {
    var q, r := x / 2 / p, x / 2 % p;
    assert x == 2 * p * q + (2 * r + x % 2) by {
      assert x / 2 == p * q + r;
      assert 2 * (p * q) == 2 * p * q;
    }
    DivisionUnique(x, 2 * p, q, 2 * r + x % 2);
  }

  // Exclusive or works bit by bit, so its low k bits come from the low k bits
  lemma {:induction false} XorLowBits(x: nat, y: nat, k: nat)
    ensures Xor(x, y) % Pow2(k) == Xor(x % Pow2(k), y % Pow2(k))
    decreases k
  {
    if k > 0 {
      var p := Pow2(k - 1);
      ModHalves(x, p);
      ModHalves(y, p);
      ModHalves(Xor(x, y), p);
      XorLowBits(x / 2, y / 2, k - 1);
      var a, b := x % (2 * p), y % (2 * p);
      XorParts(x, y);
      XorParts(a, b);
      ParityAdds(x, y, a, b);
      SameHalves(Xor(x, y) % (2 * p), Xor(a, b));
    }
  }

  lemma ModMul(a: int, b: int, m: int)
    requires m > 0
    ensures a * b % m == (a % m) * b % m
  {
    var q, r := a / m, a % m;
    var q', r' := r * b / m, r * b % m;
    assert a * b == m * (q * b + q') + r' by {
      assert a * b == (m * q + r) * b == m * q * b + r * b;
      assert m * (q * b + q') == m * q * b + m * q';
    }
    DivisionUnique(a * b, m, q * b + q', r');
  }

  lemma ModOfMultiple(x: int, m: int, c: int)
    requires m > 0 && c > 0
    ensures m * c > 0 && x % (m * c) % m == x % m
  {
    assert m * c > 0;
    var q, r := x / (m * c), x % (m * c);
    assert x == m * (c * q + r / m) + r % m by {
      assert x == m * c * q + r;
      assert m * (c * q + r / m) == m * c * q + m * (r / m);
    }
    DivisionUnique(x, m, c * q + r / m, r % m);
  }

  lemma {:induction false} Pow2Adds(i: nat, j: nat)
    ensures Pow2(i + j) == Pow2(i) * Pow2(j)
    decreases i
  {
    if i > 0 {
      Pow2Adds(i - 1, j);
      assert 2 * (Pow2(i - 1) * Pow2(j)) == 2 * Pow2(i - 1) * Pow2(j);
    }
  }

  lemma Pow2Values()
    ensures Pow2(4) == 16 && Pow2(8) == 256 && Pow2(32) == WORD
  {
    assert Pow2(4) == 16;
    Pow2Adds(4, 4);
    Pow2Adds(8, 8);
    Pow2Adds(16, 16);
  }

  // Multiplying by the FNV prime and wrapping to 32 bits loses nothing in the low k bits
  lemma PrimeInjective(x: nat, y: nat, k: nat)
    requires k <= 32
    requires x * PRIME % WORD % Pow2(k) == y * PRIME % WORD % Pow2(k)
    ensures x % Pow2(k) == y % Pow2(k)
  {
    UndoPrime(x, k);
    UndoPrime(y, k);
  }

  lemma UndoPrime(x: nat, k: nat)
    requires k <= 32
    ensures (x * PRIME % WORD % Pow2(k)) * PRIME_INVERSE % Pow2(k) == x % Pow2(k)
  {
    var m, c := Pow2(k), Pow2(32 - k);
    Pow2Values();
    Pow2Adds(k, 32 - k);
    ModOfMultiple(x * PRIME, m, c);
    ModMul(x * PRIME, PRIME_INVERSE, m);
    var n := PRIME * PRIME_INVERSE;
    assert x * PRIME * PRIME_INVERSE == n * x;
    assert n % WORD == 1;
    ModOfMultiple(n, m, c);
    ModMul(n, x, m);
    ModOfMultiple(1, m, c);
    ModMul(1, x, m);
  }

  /** One hash step, seen modulo 2^k, is injective in the byte and in the state. */
  lemma StepInjective(h: nat, g: nat, a: Byte, b: Byte, k: nat)
    requires k <= 32
    requires Step(h, a) % Pow2(k) == Step(g, b) % Pow2(k)
    ensures h % Pow2(k) == g % Pow2(k) <==> a % Pow2(k) == b % Pow2(k)
  {
    var m := Pow2(k);
    PrimeInjective(Xor(h, a), Xor(g, b), k);
    XorLowBits(h, a, k);
    XorLowBits(g, b, k);
    XorInvolutive(h % m, a % m);
    XorInvolutive(g % m, b % m);
    XorCommutes(h % m, a % m);
    XorCommutes(g % m, b % m);
    XorInvolutive(a % m, h % m);
    XorInvolutive(b % m, g % m);
  }

  // The low k bits after a step come from the low k bits before it
  lemma StepCongruent(h: nat, g: nat, b: Byte, k: nat)
    requires k <= 32 && h % Pow2(k) == g % Pow2(k)
    ensures Step(h, b) % Pow2(k) == Step(g, b) % Pow2(k)
  {
    StepLowBits(h, b, k);
    StepLowBits(g, b, k);
  }

  lemma StepLowBits(h: nat, b: Byte, k: nat)
    requires k <= 32
    ensures Step(h, b) % Pow2(k) == Xor(h % Pow2(k), b % Pow2(k)) * PRIME % Pow2(k)
  {
    var m := Pow2(k);
    Pow2Values();
    Pow2Adds(k, 32 - k);
    ModOfMultiple(Xor(h, b) * PRIME, m, Pow2(32 - k));
    ModMul(Xor(h, b), PRIME, m);
    XorLowBits(h, b, k);
  }

  // A state from which the byte leads to the given low bits, u being what the last
  // multiplication turns into them
  ghost function StateReaching(u: nat, b: Byte, k: nat): nat {
    Xor(u, b) % Pow2(k)
  }

  lemma StepReaches(u: nat, b: Byte, k: nat)
    requires k <= 32
    ensures Step(StateReaching(u, b, k), b) % Pow2(k) == (u % Pow2(k)) * PRIME % Pow2(k)
  {
    var m := Pow2(k);
    var h := StateReaching(u, b, k);
    assert h == Xor(u % m, b % m) by {
      XorLowBits(u, b, k);
    }
    XorInvolutive(u % m, b % m);
    SmallMod(Xor(u, b), m);
    StepLowBits(h, b, k);
  }

  lemma SmallMod(x: nat, m: nat)
    requires m > 0
    ensures x % m % m == x % m
  {}

  lemma ElevenUndoesPrime(x: nat)
    requires x < 16
    ensures (11 * x % 16) % 16 * PRIME % 16 == x
  {
    var q, u := 11 * x / 16, 11 * x % 16;
    assert u * PRIME == 16 * (11534613 * x - PRIME * q) + x;
    DivisionUnique(u * PRIME, 16, 11534613 * x - PRIME * q, x);
  }

  // States that differ modulo 2^k still differ after the same bytes
  lemma {:induction false} SuffixKeepsApart(h: nat, g: nat, s: Bytes, k: nat)
    requires k <= 32 && h % Pow2(k) != g % Pow2(k)
    ensures HashFrom(h, s) % Pow2(k) != HashFrom(g, s) % Pow2(k)
    decreases s
  {
    if s != [] {
      if Step(h, s[0]) % Pow2(k) == Step(g, s[0]) % Pow2(k) {
        StepInjective(h, g, s[0], s[0], k);
      }
      SuffixKeepsApart(Step(h, s[0]), Step(g, s[0]), s[1..], k);
    }
  }

  /** Two strings of one length that differ in exactly one byte, and there in the low k
      bits, have different hashes modulo 2^k. */
  lemma OneByteApart(pre: Bytes, a: Byte, b: Byte, post: Bytes, k: nat)
    requires k <= 32 && a % Pow2(k) != b % Pow2(k)
    ensures Hash(pre + [a] + post) % Pow2(k) != Hash(pre + [b] + post) % Pow2(k)
  {
    var h := Hash(pre);
    forall c: Byte ensures Hash(pre + [c] + post) == HashFrom(Step(h, c), post) {
      HashFromConcat(OFFSET_BASIS, pre + [c], post);
      HashFromConcat(OFFSET_BASIS, pre, [c]);
      assert [c][1..] == [];
      assert HashFrom(h, [c]) == HashFrom(Step(h, c), []);
    }
    if Step(h, a) % Pow2(k) == Step(h, b) % Pow2(k) {
      StepInjective(h, h, a, b, k);
    }
    SuffixKeepsApart(Step(h, a), Step(h, b), post, k);
  }
}

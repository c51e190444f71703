/**
  The integer mixer and the incremental hasher of the solver's support
  library.

  `HashHelpers<T, TWidth>` is specialised for 4-byte and 8-byte types only;
  here the byte width is a value of type `ByteWidth` and a word of that width
  is a natural number below 2^(8 * width). The unsigned arithmetic of the
  source (`<<` dropping the bits pushed past the top, `*` wrapping around,
  conversion of a signed value to the unsigned state type) is written out
  with `% Modulus(width)`.
 */
module Hash {
  import opened Bits

  /** The template argument `TWidth = sizeof(T)`: only 4 and 8 have a specialisation. */
  type ByteWidth = b: int | b == 4 || b == 8 witness 4

  /** Number of bits in a word of the given byte width. */
  function WordBits(width: ByteWidth): nat
  {
    8 * width
  }

  /** 2^32 or 2^64: unsigned arithmetic on the word type is arithmetic modulo this number. */
  function Modulus(width: ByteWidth): (m: nat)
    ensures m == Pow2(WordBits(width))
  {
    WordSizes();
    if width == 4 then 0x1_0000_0000 else 0x1_0000_0000_0000_0000
  }

  lemma WordSizes()
    ensures Pow2(32) == 0x1_0000_0000 && Pow2(64) == 0x1_0000_0000_0000_0000
  {
    assert Pow2(8) == 256;
    Pow2Add(8, 8);
    Pow2Add(16, 16);
    Pow2Add(32, 32);
  }

  /** A value of the unsigned word type (`uint32_t` or `uint64_t`). */
  predicate IsWord(width: ByteWidth, x: int)
  {
    0 <= x < Modulus(width)
  }

  // ---------------------------------------------------------------------
  // HashHelpers

  /**
    The golden-ratio constant of Knuth's multiplicative hashing (The Art of
    Computer Programming, vol. 3, section 6.4): floor(2^w / phi), made odd.
   */
  function FibonacciMultiplier(width: ByteWidth): (m: nat)
    ensures IsWord(width, m) && m % 2 == 1
  {
    if width == 4 then 0x9e3779b9 else 0x9e3779b97f4a7c15
  }

  /**
    `rotate_left(x, n)`, built from two shifts and an or. The complementary
    shift is by w - n, which C++ leaves undefined at n = 0 (a shift by the
    full width), so n must lie strictly between 0 and the word width.
    The result keeps the low w - n bits of x, moved up by n, and brings the
    high n bits of x down to the bottom.
   */
  function RotateLeft(width: ByteWidth, x: nat, n: int): (r: nat)
    requires IsWord(width, x) && 0 < n < WordBits(width)
    ensures IsWord(width, r)
    ensures r == (x % Pow2(WordBits(width) - n)) * Pow2(n) + ShiftRight(x, WordBits(width) - n)
  {
    var k := WordBits(width) - n;
    RotateArithmetic(x, n, k);
    Or(ShiftLeft(x, n, WordBits(width)), ShiftRight(x, k))
  }

  /** Bit i of x lands at bit (i + n) mod w of the rotated word: `rotate_left` is a left rotation. */
  lemma RotateLeftBits(width: ByteWidth, x: nat, n: int, i: nat)
    requires IsWord(width, x) && 0 < n < WordBits(width) && i < WordBits(width)
    ensures Bit(RotateLeft(width, x, n), (i + n) % WordBits(width)) == Bit(x, i)
  {
    RotationMovesBit(x, n, WordBits(width) - n, i);
  }

  /** Rotating by n and then by w - n gives back the original word. */
  lemma RotateLeftInverse(width: ByteWidth, x: nat, n: int)
    requires IsWord(width, x) && 0 < n < WordBits(width)
    ensures RotateLeft(width, RotateLeft(width, x, n), WordBits(width) - n) == x
  {
    var k := WordBits(width) - n;
    var hi, lo := ShiftRight(x, k), x % Pow2(k);
    Split(x, k, n);
    var y := RotateLeft(width, x, n);
    assert y == lo * Pow2(n) + hi;
    DivModUnique(y, Pow2(n), lo, hi);
    assert RotateLeft(width, y, k) == hi * Pow2(k) + lo;
  }

  /** Rotation is injective: distinct words stay distinct. */
  lemma RotateLeftInjective(width: ByteWidth, x: nat, y: nat, n: int)
    requires IsWord(width, x) && IsWord(width, y) && 0 < n < WordBits(width)
    requires RotateLeft(width, x, n) == RotateLeft(width, y, n)
    ensures x == y
  {
    RotateLeftInverse(width, x, n);
    RotateLeftInverse(width, y, n);
  }

  /** The inverse of the multiplier modulo 2^w; it exists because the multiplier is odd. */
  function MultiplierInverse(width: ByteWidth): (inv: nat)
    ensures IsWord(width, inv)
    ensures (FibonacciMultiplier(width) * inv) % Modulus(width) == 1
  {
    if width == 4 then 0x144cbc89 else 0xf1de83e19937733d
  }

  /** Multiplying by a and then by b modulo m is multiplying by a * b. */
  lemma MulModTwice(x: nat, a: nat, b: nat, m: nat)
    requires m > 0
    ensures (((x * a) % m) * b) % m == (x * (a * b)) % m
  {
    ModMulLeft(x * a, b, m);
    MulAssociates(x, a, b);
  }

  /** Multiplying by a factor that is 1 modulo m does not change a number below m. */
  lemma MulByUnit(x: nat, u: nat, m: nat)
    requires 0 <= x < m && u % m == 1
    ensures (x * u) % m == x
  {
    var q := u / m;
    assert u == q * m + 1;
    assert x * u == (x * q) * m + x by {
      MulAddDistributes(q, 1, m, x);
      assert (q * m + 1) * x == q * (m * x) + x;
    }
    DivModUnique(x * u, m, x * q, x);
  }

  /**
    Multiplication by the (odd) multiplier modulo 2^w is a bijection on
    words: multiplication by MultiplierInverse undoes it from either side.
   */
  lemma MultiplierBijective(width: ByteWidth, x: nat)
    requires IsWord(width, x)
    ensures ((x * FibonacciMultiplier(width)) % Modulus(width) * MultiplierInverse(width)) % Modulus(width) == x
    ensures ((x * MultiplierInverse(width)) % Modulus(width) * FibonacciMultiplier(width)) % Modulus(width) == x
  {
    var f, inv, m := FibonacciMultiplier(width), MultiplierInverse(width), Modulus(width);
    MulModTwice(x, f, inv, m);
    MulModTwice(x, inv, f, m);
    assert inv * f == f * inv;
    MulByUnit(x, f * inv, m);
  }

  /** Distinct words have distinct products with the multiplier. */
  lemma MultiplierInjective(width: ByteWidth, x: nat, y: nat)
    requires IsWord(width, x) && IsWord(width, y)
    requires (x * FibonacciMultiplier(width)) % Modulus(width) == (y * FibonacciMultiplier(width)) % Modulus(width)
    ensures x == y
  {
    MultiplierBijective(width, x);
    MultiplierBijective(width, y);
  }

  // ---------------------------------------------------------------------
  // Hasher

  /**
    `T(val)`: an integral value of any width and signedness converted to the
    unsigned state type, which keeps its residue modulo 2^w. Dafny's `%` is
    Euclidean, so this is right for negative values too (-1 becomes 2^w - 1).
   */
  function Truncate(width: ByteWidth, v: int): (t: nat)
    ensures IsWord(width, t)
    ensures (v - t) % Modulus(width) == 0
    ensures 0 <= v < Modulus(width) ==> t == v
  {
    var m := Modulus(width);
    DivModUnique(v - v % m, m, v / m, 0);
    ModOfSmall(v, m);
    v % m
  }

  /** One `addValue` step: rotate the state left by 5, xor in the value, multiply by the constant. */
  function MixStep(width: ByteWidth, state: nat, v: int): (next: nat)
    requires IsWord(width, state)
    ensures IsWord(width, next)
  {
    (Xor(RotateLeft(width, state, 5), Truncate(width, v)) * FibonacciMultiplier(width)) % Modulus(width)
  }

  /** The word that MixStep feeds to the multiplier is itself a word. */
  lemma MixedIsWord(width: ByteWidth, state: nat, v: int)
    requires IsWord(width, state)
    ensures IsWord(width, Xor(RotateLeft(width, state, 5), Truncate(width, v)))
  {
    XorBound(RotateLeft(width, state, 5), Truncate(width, v), WordBits(width));
  }

  /**
    From a fixed state, two values give the same next state exactly when they
    agree modulo 2^w: xor with the rotated state is injective and so is
    multiplication by the odd constant.
   */
  lemma MixStepInjective(width: ByteWidth, state: nat, a: int, b: int)
    requires IsWord(width, state)
    ensures MixStep(width, state, a) == MixStep(width, state, b) <==> Truncate(width, a) == Truncate(width, b)
  {
    if MixStep(width, state, a) == MixStep(width, state, b) {
      var r := RotateLeft(width, state, 5);
      MixedIsWord(width, state, a);
      MixedIsWord(width, state, b);
      MultiplierInjective(width, Xor(r, Truncate(width, a)), Xor(r, Truncate(width, b)));
      XorInjective(r, Truncate(width, a), Truncate(width, b));
    }
  }

  /** For a fixed value, distinct states give distinct next states: the step loses no information. */
  lemma MixStepInjectiveInState(width: ByteWidth, s: nat, t: nat, v: int)
    requires IsWord(width, s) && IsWord(width, t)
    requires MixStep(width, s, v) == MixStep(width, t, v)
    ensures s == t
  {
    var rs, rt, tv := RotateLeft(width, s, 5), RotateLeft(width, t, 5), Truncate(width, v);
    MixedIsWord(width, s, v);
    MixedIsWord(width, t, v);
    MultiplierInjective(width, Xor(rs, tv), Xor(rt, tv));
    XorSelfInverse(rs, tv);
    XorSelfInverse(rt, tv);
    RotateLeftInjective(width, s, t, 5);
  }

  /**
    The state after feeding `values`, in order, to a hasher seeded with
    `seed`: a left fold of MixStep.
   */
  function HashOf(width: ByteWidth, seed: nat, values: seq<int>): (h: nat)
    requires IsWord(width, seed)
    ensures IsWord(width, h)
    decreases |values|
  {
    if values == [] then seed else HashOf(width, MixStep(width, seed, values[0]), values[1..])
  }

  /** Feeding one more value applies one more step to the hash so far. */
  lemma {:induction false} HashOfSnoc(width: ByteWidth, seed: nat, values: seq<int>, v: int)
    requires IsWord(width, seed)
    ensures HashOf(width, seed, values + [v]) == MixStep(width, HashOf(width, seed, values), v)
    decreases |values|
  {
    if values != [] {
      assert (values + [v])[1..] == values[1..] + [v];
      HashOfSnoc(width, MixStep(width, seed, values[0]), values[1..], v);
    }
  }

  /** Hashing a concatenation continues from the hash of the first part. */
  lemma {:induction false} HashOfAppend(width: ByteWidth, seed: nat, xs: seq<int>, ys: seq<int>)
    requires IsWord(width, seed)
    ensures HashOf(width, seed, xs + ys) == HashOf(width, HashOf(width, seed, xs), ys)
    decreases |xs|
  {
    if xs == [] {
      assert xs + ys == ys;
    } else {
      var next := MixStep(width, seed, xs[0]);
      assert (xs + ys)[0] == xs[0] && (xs + ys)[1..] == xs[1..] + ys;
      assert HashOf(width, seed, xs + ys) == HashOf(width, next, xs[1..] + ys);
      assert HashOf(width, seed, xs) == HashOf(width, next, xs[1..]);
      HashOfAppend(width, next, xs[1..], ys);
    }
  }

  /** Values are taken modulo 2^w: sequences that agree there hash alike, whatever their signs. */
  lemma {:induction false} HashOfTruncated(width: ByteWidth, seed: nat, xs: seq<int>, ys: seq<int>)
    requires IsWord(width, seed)
    requires |xs| == |ys| && forall i :: 0 <= i < |xs| ==> Truncate(width, xs[i]) == Truncate(width, ys[i])
    ensures HashOf(width, seed, xs) == HashOf(width, seed, ys)
    decreases |xs|
  {
    if xs != [] {
      MixStepInjective(width, seed, xs[0], ys[0]);
      HashOfTruncated(width, MixStep(width, seed, xs[0]), xs[1..], ys[1..]);
    }
  }

  /** Different seeds give different hashes of the same sequence. */
  lemma {:induction false} HashOfInjectiveInSeed(width: ByteWidth, s: nat, t: nat, values: seq<int>)
    requires IsWord(width, s) && IsWord(width, t)
    requires HashOf(width, s, values) == HashOf(width, t, values)
    ensures s == t
    decreases |values|
  {
    if values != [] {
      HashOfInjectiveInSeed(width, MixStep(width, s, values[0]), MixStep(width, t, values[0]), values[1..]);
      MixStepInjectiveInState(width, s, t, values[0]);
    }
  }

  /** After a common prefix, the last value fed is determined by the hash, modulo 2^w. */
  lemma HashOfLastValue(width: ByteWidth, seed: nat, values: seq<int>, a: int, b: int)
    requires IsWord(width, seed)
    ensures HashOf(width, seed, values + [a]) == HashOf(width, seed, values + [b])
            <==> Truncate(width, a) == Truncate(width, b)
  {
    HashOfSnoc(width, seed, values, a);
    HashOfSnoc(width, seed, values, b);
    MixStepInjective(width, HashOf(width, seed, values), a, b);
  }

  lemma SmallPowers()
    ensures Pow2(5) == 32 && Pow2(27) == 134217728
  {
    assert Pow2(3) == 8 && Pow2(5) == 32 && Pow2(8) == 256;
    Pow2Add(8, 8);
    Pow2Add(16, 8);
    Pow2Add(24, 3);
  }

  /** From state 0 the rotation is 0, so the first value goes straight to the multiplier. */
  lemma FirstSteps()
    ensures MixStep(4, 0, 1) == 0x9e3779b9 && MixStep(4, 0, 2) == 0x3c6ef372
  {
    assert RotateLeft(4, 0, 5) == 0;
    assert Xor(0, 1) == 1 && Xor(0, 2) == 2;
  }

  /**
    Bit 0 of a 32-bit word rotated left by 5 is its bit 27: with the word
    split as hi * 2^27 + lo, the rotation ends in the parity of hi.
   */
  lemma RotateFiveParity(x: nat, hi: nat, lo: nat)
    requires lo < Pow2(27) && hi < 32 && x == hi * Pow2(27) + lo
    ensures RotateLeft(4, x, 5) % 2 == hi % 2
  {
    SmallPowers();
    DivModUnique(x, Pow2(27), hi, lo);
    var r := RotateLeft(4, x, 5);
    assert r == lo * Pow2(5) + hi;
    ParityAfterShift(r, lo, hi);
  }

  /** A word shifted left by five bits and topped up with q has the parity of q. */
  lemma ParityAfterShift(r: nat, hi: nat, q: nat)
    requires r == hi * Pow2(5) + q
    ensures r % 2 == q % 2
  {
    SmallPowers();
    assert r == (hi * 16) * 2 + q;
  }

  lemma HashOfPair(width: ByteWidth, seed: nat, a: int, b: int)
    requires IsWord(width, seed)
    ensures HashOf(width, seed, [a, b]) == MixStep(width, MixStep(width, seed, a), b)
  {
    var s := MixStep(width, seed, a);
    assert [a, b][0] == a && [a, b][1..] == [b];
    assert HashOf(width, seed, [a, b]) == HashOf(width, s, [b]);
    assert [b][0] == b && [b][1..] == [];
    assert HashOf(width, s, [b]) == HashOf(width, MixStep(width, s, b), []);
  }

  /** The hash depends on the order of the values: from seed 0, 32-bit [1, 2] and [2, 1] differ. */
  lemma OrderMatters()
    ensures HashOf(4, 0, [1, 2]) != HashOf(4, 0, [2, 1])
  {
    var s1, s2 := 0x9e3779b9, 0x3c6ef372;
    assert HashOf(4, 0, [1, 2]) == MixStep(4, s1, 2) && HashOf(4, 0, [2, 1]) == MixStep(4, s2, 1) by {
      FirstSteps();
      HashOfPair(4, 0, 1, 2);
      HashOfPair(4, 0, 2, 1);
    }
    var r1, r2 := RotateLeft(4, s1, 5), RotateLeft(4, s2, 5);
    // xor with 2 keeps r1 odd, xor with 1 makes r2 even
    assert Xor(r1, 2) % 2 == 1 && Xor(r2, 1) % 2 == 0 by {
      SmallPowers();
      RotateFiveParity(s1, 19, 104298937);
      RotateFiveParity(s2, 7, 74380146);
      XorDigits(r1, 2);
      XorDigits(r2, 1);
    }
    MixedIsWord(4, s1, 2);
    MixedIsWord(4, s2, 1);
    if MixStep(4, s1, 2) == MixStep(4, s2, 1) {
      MultiplierInjective(4, Xor(r1, 2), Xor(r2, 1));
    }
  }

  /**
    `Hasher<T, T>`: one unsigned word of state. The ghost fields record the
    seed and the values fed so far; Valid() says the state is their hash.
   */
  class Hasher {
    const width: ByteWidth
    var state: nat
    ghost var seed: nat
    ghost var values: seq<int>

    ghost predicate Valid()
      reads this
    {
      IsWord(width, seed) && state == HashOf(width, seed, values)
    }

    /** `Hasher(T init = 0)`: the state starts at the seed. */
    constructor (width: ByteWidth, init: nat := 0)
      requires IsWord(width, init)
      ensures Valid() && this.width == width
      ensures seed == init && values == [] && state == init
    {
      this.width := width;
      state := init;
      seed := init;
      values := [];
    }

    /** `addValue(val)`: one mixing step with the value taken modulo 2^w; nothing else changes. */
    method AddValue(val: int)
      requires Valid()
      modifies this
      ensures Valid()
      ensures seed == old(seed) && values == old(values) + [val]
      ensures state == MixStep(width, old(state), val)
    {
      HashOfSnoc(width, seed, values, val);
      state := MixStep(width, state, val);
      values := values + [val];
    }

    /** `getHash()`: the hash of everything fed since construction; reading it changes nothing. */
    function GetHash(): (h: nat)
      reads this
      requires Valid()
      ensures IsWord(width, h) && h == HashOf(width, seed, values)
    {
      state
    }
  }
}

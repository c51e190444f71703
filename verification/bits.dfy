/**
  Unsigned machine words as natural numbers: powers of two, the bitwise
  operators the hasher uses (`^` and `|`), single bits, and the division and
  remainder facts that the proofs about shifts and rotations rest on.
 */
module Bits {

  /** 2 to the power n. */
  function Pow2(n: nat): (r: nat)
    ensures r >= 1
  {
    if n == 0 then 1 else 2 * Pow2(n - 1)
  }

  lemma {:induction false} Pow2Add(a: nat, b: nat)
    ensures Pow2(a + b) == Pow2(a) * Pow2(b)
  {
    if a > 0 {
      Pow2Add(a - 1, b);
      assert Pow2(a + b) == 2 * Pow2(a - 1 + b);
    }
  }

  lemma {:induction false} Pow2Monotone(a: nat, b: nat)
    requires a <= b
    ensures Pow2(a) <= Pow2(b)
  {
    if a < b {
      Pow2Monotone(a, b - 1);
    }
  }

  /** Bit i of x, counting from the least significant bit. */
  predicate Bit(x: nat, i: nat) {
    (x / Pow2(i)) % 2 == 1
  }

  /** Unsigned `x << n` on a word of w bits: the bits pushed past the top are lost. */
  function ShiftLeft(x: nat, n: nat, w: nat): nat
  {
    (x * Pow2(n)) % Pow2(w)
  }

  /** Unsigned `x >> n`. */
  function ShiftRight(x: nat, n: nat): (r: nat)
    ensures r <= x
  {
    DivNonnegative(x, Pow2(n));
    x / Pow2(n)
  }

  /** Bitwise exclusive or, one bit at a time from the least significant end. */
  function Xor(a: nat, b: nat): nat
    decreases a + b
  {
    if a == 0 && b == 0 then 0
    else 2 * Xor(a / 2, b / 2) + (if a % 2 == b % 2 then 0 else 1)
  }

  /** Bitwise inclusive or, one bit at a time from the least significant end. */
  function Or(a: nat, b: nat): nat
    decreases a + b
  {
    if a == 0 && b == 0 then 0
    else 2 * Or(a / 2, b / 2) + (if a % 2 == 1 || b % 2 == 1 then 1 else 0)
  }

  // ---------------------------------------------------------------------
  // Division and remainder

  lemma MulNonnegative(a: int, b: int)
    requires a >= 0 && b >= 0
    ensures a * b >= 0
  {
  }

  lemma MulMonotone(a: int, b: int, c: int)
    requires a <= b && c >= 0
    ensures a * c <= b * c
  {
    MulNonnegative(b - a, c);
    assert (b - a) * c == b * c - a * c;
  }

  /** A quotient of natural numbers is a natural number no larger than the dividend. */
  lemma DivNonnegative(x: nat, d: nat)
    requires d > 0
    ensures 0 <= x / d <= x
  {
    var q := x / d;
    assert x == q * d + x % d;
    if q < 0 {
      MulMonotone(q, -1, d);
    } else if q > x {
      MulMonotone(x + 1, q, d);
      MulMonotone(1, d, x + 1);
    }
  }

  /** Quotient and remainder are the unique pair that rebuilds the dividend. */
  lemma DivModUnique(a: int, m: int, q: int, r: int)
    requires m > 0 && 0 <= r < m && a == q * m + r
    ensures a / m == q && a % m == r
  {
    var p := a / m;
    assert a == p * m + a % m;
    if q > p {
      assert (p + 1) * m == p * m + m;
      MulMonotone(p + 1, q, m);
    } else if q < p {
      assert (q + 1) * m == q * m + m;
      MulMonotone(q + 1, p, m);
    }
  }

  lemma ModOfSmall(v: int, m: int)
    requires m > 0
    ensures 0 <= v < m ==> v % m == v
  {
    if 0 <= v < m {
      DivModUnique(v, m, 0, v);
    }
  }

  lemma MulDivAdd(c: nat, d: nat, b: nat)
    requires d > 0
    ensures (c * d + b) / d == c + b / d
    ensures (c * d + b) % d == b % d
  {
    assert b == (b / d) * d + b % d;
    assert (c + b / d) * d == c * d + (b / d) * d;
    DivModUnique(c * d + b, d, c + b / d, b % d);
  }

  lemma DivDiv(x: nat, p: nat, q: nat)
    requires p > 0 && q > 0
    ensures x / (p * q) == (x / p) / q
  {
    var s := x / p;
    var t, u := s / q, s % q;
    assert x == s * p + x % p;
    assert s == t * q + u;
    assert s * p == t * (p * q) + u * p by {
      assert (t * q + u) * p == t * (q * p) + u * p;
    }
    MulMonotone(u, q - 1, p);
    assert (q - 1) * p == q * p - p;
    DivModUnique(x, p * q, t, u * p + x % p);
  }

  /**
    A number below 2^(k+j), cut at bit k: the part above the cut is below
    2^j, the part below it below 2^k.
   */
  lemma Split(x: nat, k: nat, j: nat)
    requires x < Pow2(k + j)
    ensures x == (x / Pow2(k)) * Pow2(k) + x % Pow2(k)
    ensures x / Pow2(k) < Pow2(j) && x % Pow2(k) < Pow2(k)
  {
    Pow2Add(j, k);
    var hi := x / Pow2(k);
    if hi >= Pow2(j) {
      MulMonotone(Pow2(j), hi, Pow2(k));
    }
  }

  lemma MulAssociates(a: int, b: int, c: int)
    ensures a * (b * c) == (a * b) * c
  {
  }

  lemma MulAddDistributes(h: int, l: int, p: int, q: int)
    ensures (h * p + l) * q == h * (p * q) + l * q
  {
  }

  /** Multiplying by 2^k and reducing modulo 2^(k+j) keeps the low j bits, moved up by k. */
  lemma ShiftLeftMod(x: nat, k: nat, j: nat)
    ensures (x * Pow2(k)) % Pow2(k + j) == (x % Pow2(j)) * Pow2(k)
  {
    var p, q := Pow2(j), Pow2(k);
    var hi, lo := x / p, x % p;
    assert Pow2(k + j) == p * q by {
      Pow2Add(j, k);
    }
    assert x * q == hi * (p * q) + lo * q by {
      assert x == hi * p + lo;
      MulAddDistributes(hi, lo, p, q);
    }
    assert 0 <= lo * q < p * q by {
      MulNonnegative(lo, q);
      MulMonotone(lo, p - 1, q);
      assert (p - 1) * q == p * q - q;
    }
    DivModUnique(x * q, p * q, hi, lo * q);
  }

  /** The converse of Split: a high part below 2^j placed above a low part below 2^k fits in k + j bits. */
  lemma JoinBound(a: nat, k: nat, b: nat, j: nat)
    requires a < Pow2(j) && b < Pow2(k)
    ensures a * Pow2(k) + b < Pow2(k + j)
  {
    var p, q := Pow2(j), Pow2(k);
    Pow2Add(j, k);
    assert Pow2(k + j) == p * q;
    MulMonotone(a, p - 1, q);
    assert (p - 1) * q == p * q - q;
  }

  /** Reducing a factor before a modular product does not change the product. */
  lemma ModMulLeft(a: nat, b: nat, m: nat)
    requires m > 0
    ensures ((a % m) * b) % m == (a * b) % m
  {
    var q, r := a / m, a % m;
    assert a == q * m + r;
    var c := r * b;
    assert c == (c / m) * m + c % m;
    assert a * b == (q * b + c / m) * m + c % m by {
      MulAddDistributes(q, r, m, b);
      assert (q * m) * b == (q * b) * m;
      assert (q * b + c / m) * m == (q * b) * m + (c / m) * m;
    }
    DivModUnique(a * b, m, q * b + c / m, c % m);
    DivModUnique(c, m, c / m, c % m);
  }

  // ---------------------------------------------------------------------
  // Single bits

  /** Adding an even multiple of p to y leaves the parity of y / p unchanged. */
  lemma EvenMultipleParity(y: nat, c: nat, p: nat, b: nat)
    requires p > 0 && y == (c * 2) * p + b
    ensures (y / p) % 2 == (b / p) % 2
  {
    MulDivAdd(c * 2, p, b);
    MulDivAdd(c, 2, b / p);
  }

  /** Bits below the cut at k come from the low part alone. */
  lemma BitBelow(a: nat, k: nat, b: nat, i: nat)
    requires i < k
    ensures Bit(a * Pow2(k) + b, i) == Bit(b, i)
  {
    var e := k - i - 1;
    var p, q, s := Pow2(i), Pow2(e), Pow2(e + 1);
    Pow2Add(e + 1, i);
    assert Pow2(k) == s * p;
    assert s == q * 2;
    var c := a * q;
    assert a * Pow2(k) == (c * 2) * p by {
      MulAssociates(a, s, p);
      MulAssociates(a, q, 2);
    }
    EvenMultipleParity(a * Pow2(k) + b, c, p, b);
  }

  /** Bits at and above the cut at k come from the high part alone. */
  lemma BitAbove(a: nat, k: nat, b: nat, j: nat)
    requires b < Pow2(k)
    ensures Bit(a * Pow2(k) + b, k + j) == Bit(a, j)
  {
    Pow2Add(k, j);
    DivDiv(a * Pow2(k) + b, Pow2(k), Pow2(j));
    MulDivAdd(a, Pow2(k), b);
    DivModUnique(b, Pow2(k), 0, b);
  }

  /**
    The arithmetic behind a left rotation by n of a word of n + k bits:
    the shifted-up low part and the shifted-down high part share no bit, so
    or-ing them adds them, and the sum is again a word of n + k bits.
   */
  lemma RotateArithmetic(x: nat, n: nat, k: nat)
    requires x < Pow2(n + k)
    ensures Or(ShiftLeft(x, n, n + k), ShiftRight(x, k)) == (x % Pow2(k)) * Pow2(n) + ShiftRight(x, k)
    ensures (x % Pow2(k)) * Pow2(n) + ShiftRight(x, k) < Pow2(n + k)
  {
    var hi, lo := ShiftRight(x, k), x % Pow2(k);
    assert ShiftLeft(x, n, n + k) == lo * Pow2(n) by {
      ShiftLeftMod(x, n, k);
    }
    assert hi < Pow2(n) && lo < Pow2(k) by {
      Split(x, k, n);
    }
    OrDisjoint(lo, n, hi);
    JoinBound(lo, n, hi, k);
  }

  /** In a rotation of an (n + k)-bit word by n, a bit i below k moves up to n + i. */
  lemma RotationMovesLowBit(x: nat, n: nat, k: nat, i: nat)
    requires x < Pow2(n + k) && i < k
    ensures Bit((x % Pow2(k)) * Pow2(n) + ShiftRight(x, k), n + i) == Bit(x, i)
  {
    var hi, lo := ShiftRight(x, k), x % Pow2(k);
    assert x == hi * Pow2(k) + lo && hi < Pow2(n) by {
      Split(x, k, n);
    }
    BitAbove(lo, n, hi, i);
    BitBelow(hi, k, lo, i);
  }

  /** In a rotation of an (n + k)-bit word by n, a bit k + j at or above k wraps down to j. */
  lemma RotationMovesHighBit(x: nat, n: nat, k: nat, j: nat)
    requires x < Pow2(n + k) && j < n
    ensures Bit((x % Pow2(k)) * Pow2(n) + ShiftRight(x, k), j) == Bit(x, k + j)
  {
    var hi, lo := ShiftRight(x, k), x % Pow2(k);
    assert x == hi * Pow2(k) + lo && lo < Pow2(k) by {
      Split(x, k, n);
    }
    BitBelow(lo, n, hi, j);
    BitAbove(hi, k, lo, j);
  }

  /** A rotation of an (n + k)-bit word by n moves bit i to bit (i + n) mod (n + k). */
  lemma RotationMovesBit(x: nat, n: nat, k: nat, i: nat)
    requires x < Pow2(n + k) && i < n + k
    ensures Bit((x % Pow2(k)) * Pow2(n) + ShiftRight(x, k), (i + n) % (n + k)) == Bit(x, i)
  {
    if i < k {
      DivModUnique(i + n, n + k, 0, n + i);
      RotationMovesLowBit(x, n, k, i);
    } else {
      DivModUnique(i + n, n + k, 1, i - k);
      RotationMovesHighBit(x, n, k, i - k);
    }
  }

  // ---------------------------------------------------------------------
  // Exclusive or

  lemma XorDigits(a: nat, b: nat)
    ensures Xor(a, b) / 2 == Xor(a / 2, b / 2)
    ensures Xor(a, b) % 2 == (if a % 2 == b % 2 then 0 else 1)
  {
    if a == 0 && b == 0 {
      assert Xor(a / 2, b / 2) == 0;
    }
  }

  lemma {:induction false} XorBound(a: nat, b: nat, k: nat)
    requires a < Pow2(k) && b < Pow2(k)
    ensures Xor(a, b) < Pow2(k)
  {
    if k > 0 && (a != 0 || b != 0) {
      XorBound(a / 2, b / 2, k - 1);
    }
  }

  lemma {:induction false} XorCommutes(a: nat, b: nat)
    ensures Xor(a, b) == Xor(b, a)
    decreases a + b
  {
    if a != 0 || b != 0 {
      XorCommutes(a / 2, b / 2);
    }
  }

  /** Applying the same mask twice gives back the original word. */
  lemma {:induction false} XorSelfInverse(a: nat, b: nat)
    ensures Xor(Xor(a, b), b) == a
    decreases a + b
  {
    var x := Xor(a, b);
    XorDigits(a, b);
    if a != 0 || b != 0 {
      XorSelfInverse(a / 2, b / 2);
      XorDigits(x, b);
      assert Xor(x, b) / 2 == a / 2;
      assert Xor(x, b) % 2 == a % 2;
    }
  }

  /** For a fixed left operand, exclusive or is injective in the right one. */
  lemma XorInjective(a: nat, b: nat, c: nat)
    requires Xor(a, b) == Xor(a, c)
    ensures b == c
  {
    XorCommutes(a, b);
    XorCommutes(a, c);
    XorSelfInverse(b, a);
    XorSelfInverse(c, a);
  }

  // ---------------------------------------------------------------------
  // Inclusive or

  lemma {:induction false} OrZero(a: nat)
    ensures Or(a, 0) == a
  {
    if a != 0 {
      OrZero(a / 2);
    }
  }

  /** Or-ing a word shifted up by k with a word below 2^k is addition: no bit is set in both. */
  lemma {:induction false} OrDisjoint(a: nat, k: nat, b: nat)
    requires b < Pow2(k)
    ensures Or(a * Pow2(k), b) == a * Pow2(k) + b
  {
    if k == 0 {
      OrZero(a);
    } else {
      var h := a * Pow2(k);
      assert h == (a * Pow2(k - 1)) * 2;
      if h != 0 || b != 0 {
        OrDisjoint(a, k - 1, b / 2);
        assert Or(h, b) == 2 * Or(h / 2, b / 2) + b % 2;
      }
    }
  }
}

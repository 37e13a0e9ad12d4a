/** Java primitive semantics the thumbnail code relies on: 32-bit `int`
    wrap-around, `<<` and `|` on `int`, bytes as read from an `InputStream`,
    and the `(int)` cast of a float. Dafny integers are unbounded, so each of
    these is written out explicitly. */
module JavaInts {

  /** A byte value as returned by `InputStream.read()` when not at end of stream. */
  type Byte = b: int | 0 <= b < 256

  const INT_MIN: int := -0x8000_0000
  const INT_MAX: int := 0x7FFF_FFFF
  const TWO_32: int := 0x1_0000_0000
  /** Width of a Java `int`. Kept a named constant (not a literal) in the
      bitwise definitions so that the verifier does not unroll them bit by bit. */
  const INT_BITS: nat := 32

  predicate IsJavaInt(x: int) {
    INT_MIN <= x <= INT_MAX
  }

  function Pow2(k: nat): (r: nat)
    ensures r >= 1
  {
    if k == 0 then 1 else 2 * Pow2(k - 1)
  }

  /** The two's-complement bit pattern of `x`, as an unsigned 32-bit value. */
  function Unsigned32(x: int): (u: nat)
    ensures u < TWO_32
    ensures IsJavaInt(x) && x >= 0 ==> u == x
    ensures IsJavaInt(x) && x < 0 ==> u == x + TWO_32
  {
    x % TWO_32
  }

  /** The Java `int` whose bit pattern is the low 32 bits of `x`. */
  function Wrap32(x: int): (r: int)
    ensures IsJavaInt(r)
    ensures (r - x) % TWO_32 == 0
  {
    var u := x % TWO_32;
    if u <= INT_MAX then u else u - TWO_32
  }

  /** Bitwise OR of the low `k` bits of two naturals. */
  function OrBits(a: nat, b: nat, k: nat): nat
    decreases k
  {
    if k == 0 then 0
    else (if a % 2 == 1 || b % 2 == 1 then 1 else 0) + 2 * OrBits(a / 2, b / 2, k - 1)
  }

  /** Java `a | b` on `int`. */
  function Or32(a: int, b: int): int {
    Wrap32(OrBits(Unsigned32(a), Unsigned32(b), INT_BITS))
  }

  /** Java `x << s` on `int`: the shift distance is taken modulo 32
      (Dafny's `%` agrees with Java's `s & 31` for negative `s` too). */
  function Shl32(x: int, s: int): int {
    Wrap32(x * Pow2(s % 32))
  }

  /** Java's `(int)` cast of a finite float: truncation toward zero,
      saturating at the `int` range. */
  function FloatToInt(x: real): (r: int)
    ensures IsJavaInt(r)
    ensures INT_MIN as real <= x < 0.0 ==> r as real - 1.0 < x <= r as real
    ensures 0.0 <= x <= INT_MAX as real ==> r as real <= x < r as real + 1.0
    ensures x > INT_MAX as real ==> r == INT_MAX
    ensures x < INT_MIN as real ==> r == INT_MIN
  {
    if x >= INT_MAX as real then INT_MAX
    else if x <= INT_MIN as real then INT_MIN
    else if x >= 0.0 then x.Floor
    else -((-x).Floor)
  }

  // ---------------------------------------------------------------------
  // Facts about OrBits

  lemma Pow2Split(k: nat)
    requires k >= 1
    ensures Pow2(k) == 2 * Pow2(k - 1)
  {
  }

  /** Splitting off the lowest bit of a remainder modulo 2^k. */
  lemma ModPow2Step(m: int, c: int, k: nat)
    requires k >= 1
    requires c == 0 || c == 1
    ensures (2 * m + c) % Pow2(k) == 2 * (m % Pow2(k - 1)) + c
  {
    var p := Pow2(k - 1);
    Pow2Split(k);
    var q := m / p;
    var r := m % p;
    assert m == q * p + r && 0 <= r < p;
    assert 2 * m + c == q * (2 * p) + (2 * r + c);
    assert 0 <= 2 * r + c < 2 * p;
    DivModUnique(2 * m + c, 2 * p, q, 2 * r + c);
  }

  lemma DivModUnique(x: int, d: int, q: int, r: int)
    requires d > 0
    requires x == q * d + r && 0 <= r < d
    ensures x / d == q && x % d == r
  {
    var q' := x / d;
    var r' := x % d;
    assert x == q' * d + r';
    assert (q' - q) * d == r - r';
    assert -d < r - r' < d;
    if q' > q {
      MulAtLeast(q' - q, d);
    } else if q' < q {
      MulAtLeast(q - q', d);
    }
  }

  lemma MulAtLeast(a: int, d: int)
    requires a >= 1 && d > 0
    ensures a * d >= d
  {
  }

  /** OR with zero keeps the other operand's low `k` bits. */
  lemma {:induction false} OrBitsZero(a: nat, k: nat)
    ensures OrBits(a, 0, k) == a % Pow2(k)
    decreases k
  {
    if k == 0 {
    } else {
      OrBitsZero(a / 2, k - 1);
      ModPow2Step(a / 2, a % 2, k);
    }
  }

  /** OR is symmetric. */
  lemma {:induction false} OrBitsSymmetric(a: nat, b: nat, k: nat)
    ensures OrBits(a, b, k) == OrBits(b, a, k)
    decreases k
  {
    if k > 0 {
      OrBitsSymmetric(a / 2, b / 2, k - 1);
    }
  }

  /** When the bits of `a` and `b` do not overlap (`a` is a multiple of 2^j,
      `b` is below 2^j), OR is addition. */
  lemma {:induction false} OrBitsDisjoint(a: nat, b: nat, j: nat, k: nat)
    requires a % Pow2(j) == 0
    requires b < Pow2(j)
    ensures OrBits(a, b, k) == (a + b) % Pow2(k)
    decreases j
  {
    if j == 0 {
      OrBitsSymmetric(a, b, k);
      OrBitsZero(a, k);
    } else if k == 0 {
    } else {
      Pow2Split(j);
      var p := Pow2(j - 1);
      assert a % 2 == 0 by {
        DivModUnique(a, 2, a / Pow2(j) * p, 0);
      }
      assert (a / 2) % p == 0 by {
        var q := a / Pow2(j);
        DivModUnique(a, Pow2(j), q, 0);
        DivModUnique(a / 2, p, q, 0);
      }
      OrBitsDisjoint(a / 2, b / 2, j - 1, k - 1);
      assert a + b == 2 * (a / 2 + b / 2) + b % 2;
      ModPow2Step(a / 2 + b / 2, b % 2, k);
    }
  }

  /** OR with all ones gives all ones. */
  lemma {:induction false} OrBitsOnes(b: nat, k: nat)
    ensures OrBits(Pow2(k) - 1, b, k) == Pow2(k) - 1
    decreases k
  {
    if k > 0 {
      var p := Pow2(k - 1);
      Pow2Split(k);
      var m := 2 * p - 1;
      assert m % 2 == 1 && m / 2 == p - 1 by {
        DivModUnique(m, 2, p - 1, 1);
      }
      OrBitsOnes(b / 2, k - 1);
      assert OrBits(m, b, k) == 1 + 2 * OrBits(m / 2, b / 2, k - 1);
    }
  }

  lemma Pow2Values()
    ensures Pow2(8) == 256
    ensures Pow2(INT_BITS) == TWO_32
  {
    assert Pow2(8) == 256;
    assert Pow2(16) == 0x1_0000;
    assert Pow2(24) == 0x100_0000;
  }

  /** A Java int survives the round trip through its bit pattern. */
  lemma Wrap32Unsigned(x: int)
    requires IsJavaInt(x)
    ensures Wrap32(Unsigned32(x)) == x
  {
  }

  /** `x | y` for two Java ints whose bits do not overlap (`y` is a byte and
      the low eight bits of `x` are clear): the sum. */
  lemma Or32Disjoint(x: int, y: int)
    requires IsJavaInt(x) && 0 <= y < 256
    requires Unsigned32(x) % 256 == 0
    requires IsJavaInt(x + y)
    ensures Or32(x, y) == x + y
  {
    Pow2Values();
    OrByteBelow(Unsigned32(x), Unsigned32(y), INT_BITS);
    AddByteUnsigned(x, y);
    Or32Via(x, y, x + y);
  }

  /** `x | y` is `v` once the bit patterns are known to combine to `v`'s. */
  lemma Or32Via(x: int, y: int, v: int)
    requires IsJavaInt(v)
    requires OrBits(Unsigned32(x), Unsigned32(y), INT_BITS) == Unsigned32(v)
    ensures Or32(x, y) == v
  {
    Wrap32Unsigned(v);
  }

  lemma AddByteUnsigned(x: int, y: int)
    requires IsJavaInt(x) && 0 <= y < 256
    requires Unsigned32(x) % 256 == 0
    requires IsJavaInt(x + y)
    ensures Unsigned32(y) == y
    ensures Unsigned32(x) + y == Unsigned32(x + y)
  {
    if x < 0 {
      assert x + y < 0;
    }
  }

  /** OR-ing a byte into a 32-bit pattern whose low eight bits are clear.
      Stated for any `k` with 2^k = 2^32 (that is, `INT_BITS`) so that the
      verifier does not expand `OrBits` bit by bit. */
  lemma OrByteBelow(u: nat, y: nat, k: nat)
    requires Pow2(k) == TWO_32
    requires u < TWO_32 && u % 256 == 0 && y < 256
    ensures u + y < TWO_32
    ensures OrBits(u, y, k) == u + y
  {
    ClearLowByteBound(u);
    Pow2Values();
    OrBitsDisjoint(u, y, 8, k);
    DivModUnique(u + y, TWO_32, 0, u + y);
  }

  lemma ClearLowByteBound(u: nat)
    requires u < TWO_32 && u % 256 == 0
    ensures u <= TWO_32 - 256
  {
    var q := u / 256;
    assert u == 256 * q;
    assert q <= 0xFF_FFFF;
  }

  lemma Or32Symmetric(x: int, y: int)
    ensures Or32(x, y) == Or32(y, x)
  {
    OrBitsSymmetric(Unsigned32(x), Unsigned32(y), INT_BITS);
  }

  /** `0 | y` is `y`. */
  lemma Or32Zero(y: int)
    requires IsJavaInt(y)
    ensures Or32(0, y) == y
  {
    Pow2Values();
    ZeroOr(Unsigned32(y), INT_BITS);
    Wrap32Unsigned(y);
  }

  lemma ZeroOr(u: nat, k: nat)
    requires Pow2(k) == TWO_32 && u < TWO_32
    ensures OrBits(Unsigned32(0), u, k) == u
  {
    OrBitsSymmetric(0, u, k);
    OrBitsZero(u, k);
    DivModUnique(u, TWO_32, 0, u);
  }

  /** `-1 | y` is `-1` whatever `y` is. */
  lemma Or32MinusOne(x: int, y: int)
    requires x == -1 || y == -1
    ensures Or32(x, y) == -1
  {
    Pow2Values();
    OnesOr(Unsigned32(x), Unsigned32(y), INT_BITS);
    assert Wrap32(TWO_32 - 1) == -1;
  }

  /** OR with the all-ones pattern, on either side. */
  lemma OnesOr(a: nat, b: nat, k: nat)
    requires Pow2(k) == TWO_32
    requires a == TWO_32 - 1 || b == TWO_32 - 1
    ensures OrBits(a, b, k) == TWO_32 - 1
  {
    if a == TWO_32 - 1 {
      OrBitsOnes(b, k);
    } else {
      OrBitsSymmetric(a, b, k);
      OrBitsOnes(a, k);
    }
  }
}

/**
 Kotlin's `Int` (a 32-bit two's-complement integer) and the parts of the Kotlin
 standard library over `Int` that the exercises use: the wrapping arithmetic
 operators, `%`, `IntRange(lo, hi).toList()` and `Iterable<Int>.sum()`.

 Dafny's `int` is unbounded: every Kotlin `Int` result is modelled as the exact
 result truncated to 32 bits by `Wrap`, and each operation is proved equal to
 the truncation of the exact mathematical value.
 */
module KotlinInt {

  const MinValue: int := -0x8000_0000
  const MaxValue: int := 0x7FFF_FFFF
  /** 2^32: two Kotlin `Int` computations agree when their exact results differ by a multiple of it. */
  const Modulus: int := 0x1_0000_0000

  /** Kotlin's `Int`. */
  type Int32 = x: int | MinValue <= x <= MaxValue

  /** Kotlin's `Long` (64 bits). */
  type Int64 = x: int | -0x8000_0000_0000_0000 <= x <= 0x7FFF_FFFF_FFFF_FFFF

  /** x and y leave the same low 32 bits. */
  predicate Congruent(x: int, y: int) {
    (x - y) % Modulus == 0
  }

  /** The `Int` that the JVM keeps of an exact result x: its low 32 bits, read as two's complement. */
  function Wrap(x: int): (r: Int32)
    ensures Congruent(r, x)
    ensures MinValue <= x <= MaxValue ==> r == x
  {
    (x - MinValue) % Modulus + MinValue
  }

  /** Congruent exact results wrap to the same `Int`. */
  lemma {:induction false} WrapCongruent(x: int, y: int)
    requires Congruent(x, y)
    ensures Wrap(x) == Wrap(y)
  {
    var a, b := x - MinValue, y - MinValue;
    var k := (x - y) / Modulus;
    assert a == b + k * Modulus;
    assert a == (b / Modulus + k) * Modulus + b % Modulus;
    ModOfDecomposition(a, b / Modulus + k, b % Modulus);
  }

  /** Euclidean remainder is determined by any decomposition n == q * Modulus + r with 0 <= r < Modulus. */
  lemma ModOfDecomposition(n: int, q: int, r: int)
    requires 0 <= r < Modulus && n == q * Modulus + r
    ensures n % Modulus == r
  {
  }

  lemma {:induction false} CongruentTransitive(x: int, y: int, z: int)
    requires Congruent(x, y) && Congruent(y, z)
    ensures Congruent(x, z)
  {
    var k, j := (x - y) / Modulus, (y - z) / Modulus;
    assert x - z == (k + j) * Modulus + 0;
    ModOfDecomposition(x - z, k + j, 0);
  }

  /** Congruence is preserved by addition. */
  lemma {:induction false} CongruentAdd(a: int, b: int, c: int, d: int)
    requires Congruent(a, b) && Congruent(c, d)
    ensures Congruent(a + c, b + d)
  {
    var k, j := (a - b) / Modulus, (c - d) / Modulus;
    assert (a + c) - (b + d) == (k + j) * Modulus + 0;
    ModOfDecomposition((a + c) - (b + d), k + j, 0);
  }

  /** Taking the same amount off congruent exact results gives the same `Int`. */
  lemma WrapSubtract(x: int, y: int, d: int)
    requires Congruent(x, y)
    ensures Wrap(x - d) == Wrap(y - d)
  {
    CongruentAdd(x, y, -d, -d);
    WrapCongruent(x - d, y - d);
  }

  /** Congruence is preserved by multiplication with the same factor. */
  lemma {:induction false} CongruentMul(a: int, b: int, c: int)
    requires Congruent(a, b)
    ensures Congruent(a * c, b * c)
  {
    var k := (a - b) / Modulus;
    assert a - b == k * Modulus;
    calc {
      a * c - b * c;
      (a - b) * c;
      (k * Modulus) * c;
      (k * c) * Modulus + 0;
    }
    ModOfDecomposition(a * c - b * c, k * c, 0);
  }

  /** Kotlin's `a % b` for a positive divisor: the remainder takes the sign of the dividend
      (truncated division), unlike Dafny's Euclidean `%`. */
  function Rem(a: int, b: int): (r: int)
    requires b > 0
    ensures -b < r < b
    ensures a >= 0 ==> 0 <= r
    ensures a < 0 ==> r <= 0
    ensures (r == 0) <==> (a % b == 0)
    ensures (a - r) % b == 0
  {
    if a >= 0 then
      RemainderDifference(a, b);
      a % b
    else
      NegatedRemainder(a, b);
      RemainderDifference(-a, b);
      NegatedRemainder(a + (-a) % b, b);
      -((-a) % b)
  }

  /** n less its remainder is a multiple of b. */
  lemma RemainderDifference(n: int, b: int)
    requires b > 0
    ensures (n - n % b) % b == 0
  {
    var q := n / b;
    assert n - n % b == b * q;
    MultipleRemainder(b, q);
  }

  /** A remainder is zero for n exactly when it is zero for -n. */
  lemma NegatedRemainder(n: int, b: int)
    requires b > 0
    ensures (n % b == 0) <==> ((-n) % b == 0)
  {
    var q, m := n / b, n % b;
    var q', m' := (-n) / b, (-n) % b;
    assert n == b * q + m;
    assert -n == b * q' + m';
    if m == 0 {
      assert m' == b * (-q - q') by { assert -n == b * (-q); }
      MultipleInRange(b, -q - q');
    }
    if m' == 0 {
      assert m == b * (-q' - q) by { assert n == b * (-q'); }
      MultipleInRange(b, -q' - q);
    }
  }

  /** Every multiple of b leaves the remainder 0. */
  lemma MultipleRemainder(b: int, q: int)
    requires b > 0
    ensures (b * q) % b == 0
  {
    var n := b * q;
    assert n % b == b * (q - n / b);
    MultipleInRange(b, q - n / b);
  }

  /** The only multiple of b in [0, b) is 0. */
  lemma MultipleInRange(b: int, t: int)
    requires b > 0 && 0 <= b * t < b
    ensures t == 0
  {
  }

  /** `IntRange(lo, hi).toList()`: the integers from lo to hi inclusive, in increasing order. */
  function Range(lo: Int32, hi: Int32): (r: seq<Int32>)
    ensures |r| == if hi < lo then 0 else hi - lo + 1
    ensures forall i :: 0 <= i < |r| ==> r[i] == lo + i
    decreases hi - lo
  {
    if hi < lo then []
    else if hi == lo then [lo]
    else Range(lo, hi - 1) + [hi]
  }

  /** The exact sum of a sequence, summed left to right. */
  function MathSum(s: seq<int>): int
  {
    if s == [] then 0 else MathSum(s[..|s| - 1]) + s[|s| - 1]
  }

  /** `Iterable<Int>.sum()`: adds the elements left to right into an `Int` accumulator
      starting at 0, so the result is the exact sum truncated to 32 bits. */
  function Sum(s: seq<Int32>): (r: Int32)
    ensures r == Wrap(MathSum(s))
  {
    if s == [] then 0
    else
      var prefix := Sum(s[..|s| - 1]);
      CongruentAdd(prefix, MathSum(s[..|s| - 1]), s[|s| - 1], s[|s| - 1]);
      WrapCongruent(prefix + s[|s| - 1], MathSum(s));
      Wrap(prefix + s[|s| - 1])
  }
}

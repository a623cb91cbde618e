/** Bit strings, bytes and the C integer operations the encoder relies on.
    A bit string is read most significant bit first, which is the order in
    which the JPEG entropy coder emits bits (section F.1.2.3 of ITU-T T.81). */
module Bits {

  /** One byte, as `fputc` and the memory sink store it. */
  type Byte = x: int | 0 <= x < 256

  /** One bit, as `bitstr_putb` receives it. */
  type Bit = x: int | 0 <= x < 2

  function Pow2(n: nat): (r: nat)
    ensures r >= 1
  {
    if n == 0 then 1 else 2 * Pow2(n - 1)
  }

  lemma {:induction false} Pow2Add(a: nat, b: nat)
    ensures Pow2(a + b) == Pow2(a) * Pow2(b)
  {
    if b > 0 {
      Pow2Add(a, b - 1);
      assert Pow2(a + b) == 2 * Pow2(a + b - 1);
    }
  }

  lemma Pow2Seventeen()
    ensures Pow2(4) == 16 && Pow2(8) == 256
    ensures Pow2(15) == 32768 && Pow2(16) == 65536 && Pow2(17) == 131072
  {
    assert Pow2(2) == 4;
    assert Pow2(4) == 4 * Pow2(2);
    assert Pow2(8) == 16 * Pow2(4);
    assert Pow2(16) == 256 * Pow2(8) by {
      Pow2Add(8, 8);
    }
  }

  lemma {:induction false} Pow2Monotone(a: nat, b: nat)
    requires a <= b
    ensures Pow2(a) <= Pow2(b)
  {
    if a < b {
      Pow2Monotone(a, b - 1);
    }
  }

  /** The range of a C `long` on an LP64 target. */
  predicate InLong(x: int)
  {
    -0x8000_0000_0000_0000 <= x < 0x8000_0000_0000_0000
  }

  /** The range of a C `int`. */
  predicate InInt(x: int)
  {
    -0x8000_0000 <= x < 0x8000_0000
  }

  /** Conversion to `int`: the value congruent to `x` modulo 2^32 in the
      `int` range, as the two's complement targets do. */
  function Int32(x: int): (r: int)
    ensures InInt(r) && (r - x) % 0x1_0000_0000 == 0
    ensures InInt(x) ==> r == x
  {
    (x + 0x8000_0000) % 0x1_0000_0000 - 0x8000_0000
  }

  /** The number a bit string denotes, most significant bit first. */
  function ValueOf(bits: seq<Bit>): (v: nat)
    ensures v < Pow2(|bits|)
  {
    if |bits| == 0 then 0 else 2 * ValueOf(bits[..|bits| - 1]) + bits[|bits| - 1]
  }

  /** The low `n` bits of `v`, most significant first. For negative `v` these
      are the bits of its two's complement representation, because Dafny's
      `/` and `%` by 2 are floor division and a non-negative remainder. */
  function BitsOf(v: int, n: nat): (bits: seq<Bit>)
    ensures |bits| == n
    decreases n
  {
    if n == 0 then [] else BitsOf(v / 2, n - 1) + [v % 2]
  }

  /** `n` copies of one bit. */
  function Repeat(b: Bit, n: nat): (bits: seq<Bit>)
    ensures |bits| == n
    ensures forall i | 0 <= i < n :: bits[i] == b
  {
    seq(n, _ => b)
  }

  lemma {:induction false} ValueOfBitsOf(v: int, n: nat)
    requires 0 <= v < Pow2(n)
    ensures ValueOf(BitsOf(v, n)) == v
  {
    if n > 0 {
      ValueOfBitsOf(v / 2, n - 1);
      assert BitsOf(v, n)[..n - 1] == BitsOf(v / 2, n - 1);
    }
  }

  lemma {:induction false} BitsOfValueOf(bits: seq<Bit>)
    ensures BitsOf(ValueOf(bits), |bits|) == bits
  {
    if |bits| > 0 {
      var init := bits[..|bits| - 1];
      BitsOfValueOf(init);
      SplitLast(bits);
    }
  }

  /** Two bit strings of one length that denote the same number are equal. */
  lemma ValueOfInjective(a: seq<Bit>, b: seq<Bit>)
    requires |a| == |b|
    requires ValueOf(a) == ValueOf(b)
    ensures a == b
  {
    BitsOfValueOf(a);
    BitsOfValueOf(b);
  }

  lemma {:induction false} ValueOfAppend(a: seq<Bit>, b: seq<Bit>)
    ensures ValueOf(a + b) == ValueOf(a) * Pow2(|b|) + ValueOf(b)
  {
    if |b| > 0 {
      var b' := b[..|b| - 1];
      ValueOfAppend(a, b');
      var ab := a + b;
      assert ab[..|ab| - 1] == a + b';
      assert ab[|ab| - 1] == b[|b| - 1];
      var x, p, w, c := ValueOf(a), Pow2(|b'|), ValueOf(b'), b[|b| - 1];
      assert ValueOf(a + b') == x * p + w;
      assert ValueOf(ab) == 2 * ValueOf(a + b') + c;
      assert ValueOf(b) == 2 * w + c;
      assert Pow2(|b|) == 2 * p;
      DoubleFactor(x, p);
    } else {
      assert a + b == a;
    }
  }

  /** Associativity of concatenation, stated for the solver, which does
      not regroup long concatenations on its own. */
  lemma AppendAssoc<T>(a: seq<T>, b: seq<T>, c: seq<T>)
    ensures a + b + c == a + (b + c)
  {
  }

  /** Kept as a lemma: in the context of `ValueOfAppend` the solver does
      not find this distribution step on its own. */
  lemma DoubleFactor(x: int, p: int)
    ensures x * (2 * p) == 2 * (x * p)
  {
  }

  /** Every bit of the two's complement of -1 is set, so `put_bits(-1, n)`
      emits `n` one bits. */
  lemma {:induction false} BitsOfMinusOne(n: nat)
    ensures BitsOf(-1, n) == Repeat(1, n)
  {
    if n > 0 {
      BitsOfMinusOne(n - 1);
    }
  }

  lemma {:induction false} BitsOfZero(n: nat)
    ensures BitsOf(0, n) == Repeat(0, n)
  {
    if n > 0 {
      BitsOfZero(n - 1);
    }
  }

  /** Multiplying by a non-negative factor keeps the order. */
  lemma MulMonotone(a: int, b: int, c: int)
    requires a <= b && c >= 0
    ensures a * c <= b * c
  {
    assert b * c == a * c + (b - a) * c;
  }

  /** A non-empty sequence is its front followed by its last element. */
  lemma SplitLast<T>(s: seq<T>)
    requires |s| > 0
    ensures s == s[..|s| - 1] + [s[|s| - 1]]
  {
  }

  /** A sequence is its first `k` elements followed by the rest. */
  lemma SplitAt<T>(s: seq<T>, k: nat)
    requires k <= |s|
    ensures s == s[..k] + s[k..]
  {
  }

  /** Quotient and remainder are unique. */
  lemma DivModUnique(v: int, d: int, q: int, r: int)
    requires d > 0
    requires v == d * q + r
    requires 0 <= r < d
    ensures v / d == q && v % d == r
  {
    var q', r' := v / d, v % d;
    assert v == d * q' + r';
    if q' > q {
      MulAtLeast(d, q' - q);
      assert false;
    } else if q' < q {
      MulAtLeast(d, q - q');
      assert false;
    }
  }

  lemma MulAtLeast(d: int, k: int)
    requires d > 0 && k >= 1
    ensures d * k >= d
  {
    assert d * k == d + d * (k - 1);
  }

  lemma MulLess(a: int, b: int, c: int)
    requires 0 <= a < b && c > 0
    ensures a * c < b * c
  {
    MulAtLeast(c, b - a);
    assert (b - a) * c == b * c - a * c;
  }

  /** C and C++ integer division, which truncates toward zero. */
  function TruncDiv(a: int, b: int): (q: int)
    requires b != 0
  {
    var mag := Abs(a) / Abs(b);
    if (a < 0) == (b < 0) then mag else -mag
  }

  function Abs(x: int): (r: nat)
  {
    if x < 0 then -x else x
  }

  /** The quotient of C division by a positive divisor has the sign of the
      dividend and leaves a remainder of that sign smaller than the divisor. */
  lemma TruncDivBounds(a: int, b: int)
    requires b > 0
    ensures a >= 0 ==> 0 <= TruncDiv(a, b) && 0 <= a - b * TruncDiv(a, b) < b
    ensures a < 0 ==> TruncDiv(a, b) <= 0 && -b < a - b * TruncDiv(a, b) <= 0
  {
    var m := Abs(a) / b;
    assert Abs(a) == b * m + Abs(a) % b;
    if a < 0 {
      assert TruncDiv(a, b) == -m;
      assert a - b * (-m) == -(Abs(a) - b * m);
    }
  }

  /** For non-negative operands C division agrees with Dafny's. */
  lemma TruncDivNonNegative(a: int, b: int)
    requires a >= 0 && b > 0
    ensures TruncDiv(a, b) == a / b
  {
  }
}

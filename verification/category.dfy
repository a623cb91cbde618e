/** The magnitude category of a coefficient and its value bits, as
    `HuffmanCodec::categoryEncode` computes them (Table F.1 and section
    F.1.2.1 of ITU-T T.81), with the decoder's EXTEND procedure (Figure F.12)
    as the inverse. */
module Category {
  import opened Bits

  /** Bit `i` of `a`, i.e. whether `a & (1 << i)` is non-zero. */
  function BitAt(a: nat, i: nat): (bit: Bit)
  {
    (a / Pow2(i)) % 2
  }

  /** The loop `while (i && !(absc & mask)) { mask >>= 1; i--; }` with
      `mask == 1 << i`: starting at bit `i`, the first set bit going down,
      stopping at bit 0. */
  function ScanDown(a: nat, i: nat, mask: nat): (r: nat)
    requires mask == Pow2(i)
    ensures r <= i
    ensures r > 0 ==> BitAt(a, r) == 1
  {
    if i == 0 || (a / mask) % 2 == 1 then i else ScanDown(a, i - 1, mask / 2)
  }

  /** The two outputs of `categoryEncode`: the value bits and their count. */
  datatype Coded = Coded(code: int, size: nat)

  /** A C `int` whose `abs` is defined. */
  predicate IsInt(v: int)
  {
    -0x8000_0000 < v < 0x8000_0000
  }

  /** `categoryEncode(code, size)`. Only bits 15..0 of `|v|` are inspected.
      For negative `v` the source computes `(1 << size) - absc - 1` in
      unsigned arithmetic and stores it back into an `int`; the value lies in
      the `int` range, so the wrap-around cancels and plain arithmetic is
      exact. */
  function CategoryEncode(v: int): (r: Coded)
    requires IsInt(v)
    ensures r.size <= 16
    ensures r.size == 0 <==> v == 0
    ensures v >= 0 ==> r.code == v
  {
    var absc := Abs(v);
    if absc == 0 then Coded(v, 0)
    else
      Pow2Seventeen();
      var size := ScanDown(absc, 15, 0x8000) + 1;
      if v < 0 then Coded(Pow2(size) - absc - 1, size) else Coded(v, size)
  }

  /** The number of binary digits of `n`: an independent definition of the
      category (Table F.1 of ITU-T T.81 lists category `s` for magnitudes in
      [2^(s-1), 2^s)). */
  function BitLength(n: nat): (b: nat)
    ensures n == 0 <==> b == 0
  {
    if n == 0 then 0 else 1 + BitLength(n / 2)
  }

  /** EXTEND of Figure F.12 of ITU-T T.81: the coefficient that `t` value
      bits denote. A leading 0 bit marks a negative value. */
  function Extend(c: int, t: nat): (v: int)
    ensures t > 0 && Pow2(t - 1) <= c ==> v == c
  {
    if t == 0 then 0 else if c < Pow2(t - 1) then c - Pow2(t) + 1 else c
  }

  lemma {:induction false} ScanDownTop(a: nat, i: nat)
    requires 0 < a < Pow2(i + 1)
    ensures Pow2(ScanDown(a, i, Pow2(i))) <= a < Pow2(ScanDown(a, i, Pow2(i)) + 1)
    decreases i
  {
    HalfQuotient(a, Pow2(i));
    if i > 0 && BitAt(a, i) == 0 {
      ScanDownTop(a, i - 1);
      assert Pow2(i) / 2 == Pow2(i - 1);
    }
  }

  /** Below `2p`, bit `log p` tells whether `a` reaches `p`. */
  lemma HalfQuotient(a: nat, p: nat)
    requires p > 0 && a < 2 * p
    ensures a / p == 0 || a / p == 1
    ensures a / p % 2 == 1 <==> a >= p
  {
    DivModUnique(a, p, if a >= p then 1 else 0, if a >= p then a - p else a);
  }

  /** The category is the bit length of the magnitude, for magnitudes below
      2^16, where it is at most 16. */
  lemma CategoryBounds(v: int)
    requires 0 < Abs(v) < 0x1_0000
    ensures IsInt(v)
    ensures 1 <= CategoryEncode(v).size <= 16
    ensures Pow2(CategoryEncode(v).size - 1) <= Abs(v) < Pow2(CategoryEncode(v).size)
  {
    Pow2Seventeen();
    ScanDownTop(Abs(v), 15);
    assert ScanDown(Abs(v), 15, 0x8000) == ScanDown(Abs(v), 15, Pow2(15));
  }

  lemma {:induction false} BitLengthBounds(n: nat)
    requires n > 0
    ensures Pow2(BitLength(n) - 1) <= n < Pow2(BitLength(n))
  {
    if n >= 2 {
      BitLengthBounds(n / 2);
    }
  }

  /** The exponent of a power-of-two interval holding `n` is unique. */
  lemma IntervalUnique(n: nat, a: nat, b: nat)
    requires a > 0 && b > 0
    requires Pow2(a - 1) <= n < Pow2(a)
    requires Pow2(b - 1) <= n < Pow2(b)
    ensures a == b
  {
    if a < b {
      Pow2Monotone(a, b - 1);
    } else if b < a {
      Pow2Monotone(b, a - 1);
    }
  }

  /** `categoryEncode` computes the bit length of the magnitude. */
  lemma CategoryIsBitLength(v: int)
    requires Abs(v) < 0x1_0000
    ensures IsInt(v)
    ensures CategoryEncode(v).size == BitLength(Abs(v))
  {
    if v != 0 {
      CategoryBounds(v);
      BitLengthOfInterval(Abs(v), CategoryEncode(v).size);
    }
  }

  /** The exponent of the power-of-two interval holding `n` is its bit
      length. */
  lemma BitLengthOfInterval(n: nat, s: nat)
    requires 1 <= s && Pow2(s - 1) <= n < Pow2(s)
    ensures s == BitLength(n)
  {
    BitLengthBounds(n);
    IntervalUnique(n, s, BitLength(n));
  }


  /** The value bits fit in `size` bits, and EXTEND recovers the
      coefficient from them: the coding is invertible given the size. */
  lemma CategoryRoundTrip(v: int)
    requires Abs(v) < 0x1_0000
    ensures IsInt(v)
    ensures 0 <= CategoryEncode(v).code < Pow2(CategoryEncode(v).size)
    ensures Extend(CategoryEncode(v).code, CategoryEncode(v).size) == v
  {
    Pow2Seventeen();
    if v != 0 {
      CategoryBounds(v);
      var r := CategoryEncode(v);
      assert Pow2(r.size) == 2 * Pow2(r.size - 1);
    }
  }

  /** A negative coefficient is sent as the low `size` bits of `v - 1`, whose
      leading bit is 0; a positive one has leading bit 1. */
  lemma CategorySign(v: int)
    requires 0 < Abs(v) < 0x1_0000
    ensures IsInt(v)
    ensures v < 0 <==> CategoryEncode(v).code < Pow2(CategoryEncode(v).size - 1)
    ensures v < 0 ==> CategoryEncode(v).code == v - 1 + Pow2(CategoryEncode(v).size)
  {
    CategoryBounds(v);
    var r := CategoryEncode(v);
    assert Pow2(r.size) == 2 * Pow2(r.size - 1);
  }
}

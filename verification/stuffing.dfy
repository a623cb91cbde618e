/** Byte stuffing and the packing of bit strings into bytes, as the JPEG
    entropy-coded segment uses them (section F.1.2.3 of ITU-T T.81). */
module Stuffing {
  import opened Bits

  /** One data byte as it appears in the entropy-coded segment. */
  function StuffByte(x: Byte): (r: seq<Byte>)
    ensures 1 <= |r| <= 2 && r[0] == x
  {
    if x == 0xFF then [0xFF, 0x00] else [x]
  }

  /** Byte stuffing (section F.1.2.3 of ITU-T T.81): 0x00 after every 0xFF. */
  function Stuff(bytes: seq<Byte>): (r: seq<Byte>)
    ensures |bytes| <= |r| <= 2 * |bytes|
    decreases |bytes|
  {
    if |bytes| == 0 then []
    else Stuff(bytes[..|bytes| - 1]) + StuffByte(bytes[|bytes| - 1])
  }

  /** Groups of 8 bits, most significant first, as bytes. */
  function PackBytes(bits: seq<Bit>): (r: seq<Byte>)
    requires |bits| % 8 == 0
    ensures |r| == |bits| / 8
    decreases |bits|
  {
    if |bits| == 0 then []
    else
      var last := bits[|bits| - 8..];
      ValueOfByte(last);
      PackBytes(bits[..|bits| - 8]) + [ValueOf(last)]
  }

  /** The bits of each byte, most significant first. */
  function Unpack(bytes: seq<Byte>): (r: seq<Bit>)
  {
    Concat(ByteBits, bytes)
  }

  /** The concatenation of `f(x)` over the elements `x` of `xs`. */
  function Concat(f: int -> seq<Bit>, xs: seq<Byte>): (r: seq<Bit>)
    decreases |xs|
  {
    if |xs| == 0 then [] else Concat(f, xs[..|xs| - 1]) + f(xs[|xs| - 1])
  }

  /** The 8 bits of a byte, most significant first. */
  function ByteBits(x: int): (r: seq<Bit>)
    ensures |r| == 8
  {
    TopBits(x, 8)
  }

  /** `n` bits taken from bit 7 of an 8-bit register that shifts left after
      each one. */
  function TopBits(v: int, n: nat): (r: seq<Bit>)
    ensures |r| == n
    decreases n
  {
    if n == 0 then [] else [(v / 128) % 2] + TopBits((v * 2) % 256, n - 1)
  }

  /** Length of the part of a bit string that fills whole bytes. */
  function Aligned(n: nat): (a: nat)
  {
    n - n % 8
  }

  lemma Pow2Small(n: nat)
    requires n <= 8
    ensures Pow2(n) <= 256
  {
    Pow2Monotone(n, 8);
  }

  lemma StuffBound(bytes: seq<Byte>)
    ensures |Stuff(bytes)| <= 2 * |bytes|
  {
  }

  lemma {:induction false} StuffAppend(a: seq<Byte>, b: seq<Byte>)
    ensures Stuff(a + b) == Stuff(a) + Stuff(b)
    decreases |b|
  {
    if |b| == 0 {
      assert a + b == a;
    } else {
      var b' := b[..|b| - 1];
      var x := b[|b| - 1];
      StuffAppend(a, b');
      DropLast(a, b);
      StuffLast(a + b);
      StuffLast(b);
      AppendAssoc(Stuff(a), Stuff(b'), StuffByte(x));
    }
  }

  /** Dropping the last element of `a + b`, for non-empty `b`. */
  lemma DropLast<T>(a: seq<T>, b: seq<T>)
    requires |b| > 0
    ensures (a + b)[..|a + b| - 1] == a + b[..|b| - 1]
    ensures (a + b)[|a + b| - 1] == b[|b| - 1]
  {
    assert (a + b)[..|a + b| - 1] == a + b[..|b| - 1];
  }

  lemma StuffLast(s: seq<Byte>)
    requires |s| > 0
    ensures Stuff(s) == Stuff(s[..|s| - 1]) + StuffByte(s[|s| - 1])
  {
  }

  lemma {:induction false} ConcatAppend(f: int -> seq<Bit>, a: seq<Byte>, b: seq<Byte>)
    ensures Concat(f, a + b) == Concat(f, a) + Concat(f, b)
    decreases |b|
  {
    if |b| == 0 {
      assert a + b == a;
    } else {
      var b' := b[..|b| - 1];
      ConcatAppend(f, a, b');
      assert (a + b)[..|a + b| - 1] == a + b';
      assert Concat(f, a + b) == Concat(f, a + b') + f(b[|b| - 1]);
      AppendAssoc(Concat(f, a), Concat(f, b'), f(b[|b| - 1]));
    }
  }

  lemma UnpackOne(x: Byte)
    ensures Unpack([x]) == ByteBits(x)
  {
    assert [x][..0] == [];
    assert Concat(ByteBits, [x]) == Concat(ByteBits, []) + ByteBits(x);
  }

  lemma UnpackLast(bytes: seq<Byte>)
    requires |bytes| > 0
    ensures Unpack(bytes) == Unpack(bytes[..|bytes| - 1]) + ByteBits(bytes[|bytes| - 1])
  {
    var x := bytes[|bytes| - 1];
    SplitLast(bytes);
    UnpackAppend(bytes[..|bytes| - 1], [x]);
    UnpackOne(x);
  }

  lemma UnpackAppend(a: seq<Byte>, b: seq<Byte>)
    ensures Unpack(a + b) == Unpack(a) + Unpack(b)
  {
    ConcatAppend(ByteBits, a, b);
  }

  lemma Pow2Seven()
    ensures Pow2(7) == 128
  {
    assert Pow2(1) == 2;
    assert Pow2(3) == 2 * 2 * Pow2(1);
    assert Pow2(5) == 2 * 2 * Pow2(3);
    assert Pow2(7) == 2 * 2 * Pow2(5);
  }

  /** The bits of a short bit string placed at the top of the register are
      that bit string. */
  lemma {:induction false} TopBitsValueOf(b: seq<Bit>)
    requires |b| <= 8
    ensures TopBits(ValueOf(b) * Pow2(8 - |b|), |b|) == b
    decreases |b|
  {
    if |b| > 0 {
      var n := |b|;
      var rest := b[1..];
      var v := ValueOf(rest);
      var p := Pow2(n - 1);
      var q := Pow2(8 - n);
      var b0: int := b[0];
      TopBitsValueOf(rest);
      assert b == [b[0]] + rest;
      assert ValueOf([b[0]]) == b[0] by {
        assert [b[0]][..0] == [];
      }
      ValueOfAppend([b[0]], rest);
      Pow2Add(n - 1, 8 - n);
      Pow2Seven();
      assert ValueOf(b) == b0 * p + v;
      TopStep(b0, v, p, q);
      assert Pow2(8 - (n - 1)) == 2 * q;
    }
  }

  /** The arithmetic of one step of `TopBitsValueOf`. */
  lemma TopStep(b0: int, v: int, p: int, q: int)
    requires 0 <= b0 < 2 && 0 <= v < p && q > 0 && p * q == 128
    ensures (b0 * p + v) * q / 128 % 2 == b0
    ensures ((b0 * p + v) * q * 2) % 256 == v * (2 * q)
  {
    var w := (b0 * p + v) * q;
    assert (b0 * p + v) * q == b0 * (p * q) + v * q;
    assert b0 * (p * q) == b0 * 128;
    MulLess(v, p, q);
    DivModUnique(w, 128, b0, v * q);
    assert v * (2 * q) == 2 * (v * q);
    DivModUnique(w * 2, 256, b0, 2 * (v * q));
  }

  lemma ValueOfByte(bits: seq<Bit>)
    requires |bits| == 8
    ensures ValueOf(bits) < 256
  {
    Pow2Small(8);
  }

  /** The bits of a byte are the bit string it packs. */
  lemma ByteBitsValueOf(bits: seq<Bit>)
    requires |bits| == 8
    ensures ByteBits(ValueOf(bits)) == bits
  {
    TopBitsValueOf(bits);
  }

  lemma PackBytesLast(bits: seq<Bit>)
    requires |bits| % 8 == 0 && |bits| > 0
    ensures ValueOf(bits[|bits| - 8..]) < 256
    ensures PackBytes(bits) == PackBytes(bits[..|bits| - 8]) + [ValueOf(bits[|bits| - 8..])]
  {
    ValueOfByte(bits[|bits| - 8..]);
  }

  lemma UnpackPackLast(bits: seq<Bit>)
    requires |bits| % 8 == 0 && |bits| > 0
    ensures Unpack(PackBytes(bits)) == Unpack(PackBytes(bits[..|bits| - 8])) + bits[|bits| - 8..]
  {
    var init, last := bits[..|bits| - 8], bits[|bits| - 8..];
    PackBytesLast(bits);
    var x: Byte := ValueOf(last);
    UnpackAppend(PackBytes(init), [x]);
    UnpackOne(x);
    ByteBitsValueOf(last);
  }

  /** Unpacking undoes packing. */
  lemma {:induction false} UnpackPackBytes(bits: seq<Bit>)
    requires |bits| % 8 == 0
    ensures Unpack(PackBytes(bits)) == bits
    decreases |bits|
  {
    if |bits| > 0 {
      var init, last := bits[..|bits| - 8], bits[|bits| - 8..];
      UnpackPackBytes(init);
      UnpackPackLast(bits);
      SplitAt(bits, |bits| - 8);
    }
  }

  lemma ShiftIn(tail: seq<Bit>, b: Bit)
    ensures ValueOf(tail + [b]) == 2 * ValueOf(tail) + b
  {
    assert (tail + [b])[..|tail|] == tail;
  }

  /** The bits of a byte completed by one more bit, packed. */
  lemma PackLastByte(bits: seq<Bit>, b: Bit)
    requires |bits| % 8 == 7
    ensures Pow2(|bits[Aligned(|bits|)..] + [b]|) == 256
    ensures PackBytes(bits + [b]) == PackBytes(bits[..Aligned(|bits|)]) + [ValueOf(bits[Aligned(|bits|)..] + [b])]
  {
    var bits' := bits + [b];
    var a := Aligned(|bits|);
    assert |bits'| - 8 == a;
    assert bits'[..a] == bits[..a];
    assert bits'[a..] == bits[a..] + [b];
    assert Pow2(8) == 256;
  }
}

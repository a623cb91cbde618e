/** The standard Huffman tables and the canonical code construction of
    `HuffmanCodec::initCodeList` (Annex C of ITU-T T.81, Figures C.1 and C.2).
    A table is laid out as in a DHT segment: 16 counts, the number of codes
    of each length 1..16, followed by the symbols in code order. */
module HuffmanTable {
  import opened Bits

  /** `MAX_HUFFMAN_CODE_LEN`: the number of count bytes that open a table. */
  const MaxCodeLength := 16

  // The tables of section K.3 of ITU-T T.81, as `STD_HUFTAB_*`.

  const LuminAc: seq<Byte> := LuminAcCounts + LuminAcSymbols

  const LuminAcCounts: seq<Byte> := [
      0x00, 0x02, 0x01, 0x03, 0x03, 0x02, 0x04, 0x03, 0x05, 0x05, 0x04, 0x04, 0x00, 0x00, 0x01, 0x7d
    ]

  /** Split into rows of sixteen, which keeps indexing cheap for the verifier. */
  const LuminAcSymbols: seq<Byte> :=
    LuminAcRow0 + LuminAcRow1 + LuminAcRow2 + LuminAcRow3 + LuminAcRow4 + LuminAcRow5 + LuminAcRow6 + LuminAcRow7 + LuminAcRow8 + LuminAcRow9 + LuminAcRow10

  const LuminAcRow0: seq<Byte> := [0x01, 0x02, 0x03, 0x00, 0x04, 0x11, 0x05, 0x12, 0x21, 0x31, 0x41, 0x06, 0x13, 0x51, 0x61, 0x07]

  const LuminAcRow1: seq<Byte> := [0x22, 0x71, 0x14, 0x32, 0x81, 0x91, 0xa1, 0x08, 0x23, 0x42, 0xb1, 0xc1, 0x15, 0x52, 0xd1, 0xf0]

  const LuminAcRow2: seq<Byte> := [0x24, 0x33, 0x62, 0x72, 0x82, 0x09, 0x0a, 0x16, 0x17, 0x18, 0x19, 0x1a, 0x25, 0x26, 0x27, 0x28]

  const LuminAcRow3: seq<Byte> := [0x29, 0x2a, 0x34, 0x35, 0x36, 0x37, 0x38, 0x39, 0x3a, 0x43, 0x44, 0x45, 0x46, 0x47, 0x48, 0x49]

  const LuminAcRow4: seq<Byte> := [0x4a, 0x53, 0x54, 0x55, 0x56, 0x57, 0x58, 0x59, 0x5a, 0x63, 0x64, 0x65, 0x66, 0x67, 0x68, 0x69]

  const LuminAcRow5: seq<Byte> := [0x6a, 0x73, 0x74, 0x75, 0x76, 0x77, 0x78, 0x79, 0x7a, 0x83, 0x84, 0x85, 0x86, 0x87, 0x88, 0x89]

  const LuminAcRow6: seq<Byte> := [0x8a, 0x92, 0x93, 0x94, 0x95, 0x96, 0x97, 0x98, 0x99, 0x9a, 0xa2, 0xa3, 0xa4, 0xa5, 0xa6, 0xa7]

  const LuminAcRow7: seq<Byte> := [0xa8, 0xa9, 0xaa, 0xb2, 0xb3, 0xb4, 0xb5, 0xb6, 0xb7, 0xb8, 0xb9, 0xba, 0xc2, 0xc3, 0xc4, 0xc5]

  const LuminAcRow8: seq<Byte> := [0xc6, 0xc7, 0xc8, 0xc9, 0xca, 0xd2, 0xd3, 0xd4, 0xd5, 0xd6, 0xd7, 0xd8, 0xd9, 0xda, 0xe1, 0xe2]

  const LuminAcRow9: seq<Byte> := [0xe3, 0xe4, 0xe5, 0xe6, 0xe7, 0xe8, 0xe9, 0xea, 0xf1, 0xf2, 0xf3, 0xf4, 0xf5, 0xf6, 0xf7, 0xf8]

  const LuminAcRow10: seq<Byte> := [0xf9, 0xfa]

  const LuminDc: seq<Byte> := LuminDcCounts + LuminDcSymbols

  const LuminDcCounts: seq<Byte> := [
      0x00, 0x01, 0x05, 0x01, 0x01, 0x01, 0x01, 0x01, 0x01, 0x00, 0x00, 0x00, 0x00, 0x00, 0x00, 0x00
    ]

  const LuminDcSymbols: seq<Byte> := [
      0x00, 0x01, 0x02, 0x03, 0x04, 0x05, 0x06, 0x07, 0x08, 0x09, 0x0a, 0x0b
    ]

  const ChromAc: seq<Byte> := ChromAcCounts + ChromAcSymbols

  const ChromAcCounts: seq<Byte> := [
      0x00, 0x02, 0x01, 0x02, 0x04, 0x04, 0x03, 0x04, 0x07, 0x05, 0x04, 0x04, 0x00, 0x01, 0x02, 0x77
    ]

  /** Split into rows of sixteen, which keeps indexing cheap for the verifier. */
  const ChromAcSymbols: seq<Byte> :=
    ChromAcRow0 + ChromAcRow1 + ChromAcRow2 + ChromAcRow3 + ChromAcRow4 + ChromAcRow5 + ChromAcRow6 + ChromAcRow7 + ChromAcRow8 + ChromAcRow9 + ChromAcRow10

  const ChromAcRow0: seq<Byte> := [0x00, 0x01, 0x02, 0x03, 0x11, 0x04, 0x05, 0x21, 0x31, 0x06, 0x12, 0x41, 0x51, 0x07, 0x61, 0x71]

  const ChromAcRow1: seq<Byte> := [0x13, 0x22, 0x32, 0x81, 0x08, 0x14, 0x42, 0x91, 0xa1, 0xb1, 0xc1, 0x09, 0x23, 0x33, 0x52, 0xf0]

  const ChromAcRow2: seq<Byte> := [0x15, 0x62, 0x72, 0xd1, 0x0a, 0x16, 0x24, 0x34, 0xe1, 0x25, 0xf1, 0x17, 0x18, 0x19, 0x1a, 0x26]

  const ChromAcRow3: seq<Byte> := [0x27, 0x28, 0x29, 0x2a, 0x35, 0x36, 0x37, 0x38, 0x39, 0x3a, 0x43, 0x44, 0x45, 0x46, 0x47, 0x48]

  const ChromAcRow4: seq<Byte> := [0x49, 0x4a, 0x53, 0x54, 0x55, 0x56, 0x57, 0x58, 0x59, 0x5a, 0x63, 0x64, 0x65, 0x66, 0x67, 0x68]

  const ChromAcRow5: seq<Byte> := [0x69, 0x6a, 0x73, 0x74, 0x75, 0x76, 0x77, 0x78, 0x79, 0x7a, 0x82, 0x83, 0x84, 0x85, 0x86, 0x87]

  const ChromAcRow6: seq<Byte> := [0x88, 0x89, 0x8a, 0x92, 0x93, 0x94, 0x95, 0x96, 0x97, 0x98, 0x99, 0x9a, 0xa2, 0xa3, 0xa4, 0xa5]

  const ChromAcRow7: seq<Byte> := [0xa6, 0xa7, 0xa8, 0xa9, 0xaa, 0xb2, 0xb3, 0xb4, 0xb5, 0xb6, 0xb7, 0xb8, 0xb9, 0xba, 0xc2, 0xc3]

  const ChromAcRow8: seq<Byte> := [0xc4, 0xc5, 0xc6, 0xc7, 0xc8, 0xc9, 0xca, 0xd2, 0xd3, 0xd4, 0xd5, 0xd6, 0xd7, 0xd8, 0xd9, 0xda]

  const ChromAcRow9: seq<Byte> := [0xe2, 0xe3, 0xe4, 0xe5, 0xe6, 0xe7, 0xe8, 0xe9, 0xea, 0xf2, 0xf3, 0xf4, 0xf5, 0xf6, 0xf7, 0xf8]

  const ChromAcRow10: seq<Byte> := [0xf9, 0xfa]

  const ChromDc: seq<Byte> := ChromDcCounts + ChromDcSymbols

  const ChromDcCounts: seq<Byte> := [
      0x00, 0x03, 0x01, 0x01, 0x01, 0x01, 0x01, 0x01, 0x01, 0x01, 0x01, 0x00, 0x00, 0x00, 0x00, 0x00
    ]

  const ChromDcSymbols: seq<Byte> := [
      0x00, 0x01, 0x02, 0x03, 0x04, 0x05, 0x06, 0x07, 0x08, 0x09, 0x0a, 0x0b
    ]

  /** The `depth` (code length) and `code` fields of a `HUFCODEITEM`. */
  datatype CodeEntry = CodeEntry(depth: int, code: int)

  function Total(counts: seq<Byte>): (t: nat)
    decreases |counts|
  {
    if |counts| == 0 then 0 else counts[0] + Total(counts[1..])
  }

  /** The number of codes a table defines. */
  function Size(table: seq<Byte>): (n: nat)
    requires |table| >= MaxCodeLength
  {
    Total(table[..MaxCodeLength])
  }

  /** A table `initCodeList` can read without leaving its arrays: all listed
      symbols are present and the 256 slots of `hufsize`/`hufcode` suffice. */
  predicate WellFormed(table: seq<Byte>)
  {
    |table| >= MaxCodeLength && MaxCodeLength + Size(table) <= |table| && Size(table) <= 256
  }

  /** `n` consecutive codes of length `len` starting at `code`. */
  function Run(len: int, code: int, n: nat): (r: seq<CodeEntry>)
    ensures |r| == n
  {
    seq(n, j => CodeEntry(len, code + j))
  }

  /** The first loop of `initCodeList` from length `i + 1` on, with `code`
      the value of the code counter on entry to that length. */
  function Generate(counts: seq<Byte>, i: nat, code: int): (r: seq<CodeEntry>)
    requires i <= |counts|
    ensures |r| == Total(counts[i..])
    decreases |counts| - i
  {
    if i == |counts| then []
    else
      assert counts[i..][1..] == counts[i + 1..];
      Run(i + 1, code, counts[i]) + Generate(counts, i + 1, (code + counts[i]) * 2)
  }

  /** The code lengths and codes (`hufsize`, `hufcode`) in symbol-list order. */
  function CodeSequence(table: seq<Byte>): (r: seq<CodeEntry>)
    requires |table| >= MaxCodeLength
    ensures |r| == Size(table)
  {
    assert table[..MaxCodeLength][0..] == table[..MaxCodeLength];
    Generate(table[..MaxCodeLength], 0, 0)
  }

  /** The listed symbols, in code order. */
  function Symbols(table: seq<Byte>): (r: seq<Byte>)
    requires WellFormed(table)
    ensures |r| == Size(table)
  {
    table[MaxCodeLength..MaxCodeLength + Size(table)]
  }

  /** The second loop of `initCodeList`: `codeList[symbol] = entry`, in
      order, so a later duplicate of a symbol overwrites an earlier one. */
  function Assign(syms: seq<Byte>, entries: seq<CodeEntry>, k: nat): (m: map<int, CodeEntry>)
    requires k <= |syms| && k <= |entries|
  {
    if k == 0 then map[] else Assign(syms, entries, k - 1)[syms[k - 1] := entries[k - 1]]
  }

  /** The code list `initCodeList` builds for a table. */
  function CodeList(table: seq<Byte>): (m: map<int, CodeEntry>)
    requires WellFormed(table)
  {
    Assign(Symbols(table), CodeSequence(table), Size(table))
  }

  /** The bits `huffmanEncode` emits for an entry: `put_bits(code, depth)`. */
  function CodeBits(e: CodeEntry): (bits: seq<Bit>)
    requires 0 <= e.depth <= 32
    ensures |bits| == e.depth
  {
    BitsOf(e.code, e.depth)
  }

  // ---------------------------------------------------------------------
  // Shape of the canonical code (Figure C.2 of ITU-T T.81)
  // ---------------------------------------------------------------------

  /** Successive entries of a canonical code: the length never decreases,
      and the next code is the previous one plus one, shifted left by the
      growth in length. */
  predicate CanonicalStep(e: CodeEntry, f: CodeEntry)
  {
    e.depth <= f.depth && f.code == (e.code + 1) * Pow2(f.depth - e.depth)
  }

  lemma DoubleShift(c: int, m: nat)
    ensures c * 2 * Pow2(m) == c * Pow2(m + 1)
  {
    assert Pow2(m + 1) == 2 * Pow2(m);
    MulAssoc(c, 2, Pow2(m));
  }

  lemma MulAssoc(a: int, b: int, c: int)
    ensures a * b * c == a * (b * c)
  {
  }

  lemma {:induction false} GenerateDepths(counts: seq<Byte>, i: nat, code: int)
    requires i <= |counts|
    ensures forall k | 0 <= k < |Generate(counts, i, code)| ::
              i + 1 <= Generate(counts, i, code)[k].depth <= |counts|
    decreases |counts| - i
  {
    if i < |counts| {
      var n, c2 := counts[i], (code + counts[i]) * 2;
      var R, T := Run(i + 1, code, n), Generate(counts, i + 1, c2);
      var E: seq<CodeEntry> := R + T;
      GenerateDepths(counts, i + 1, c2);
      forall k | 0 <= k < |E| ensures i + 1 <= E[k].depth <= |counts| {
        if k >= n {
          assert E[k] == T[k - n];
        }
      }
    }
  }

  lemma {:induction false} GenerateCodes(counts: seq<Byte>, i: nat, code: int)
    requires i <= |counts| && code >= 0
    ensures forall k | 0 <= k < |Generate(counts, i, code)| :: Generate(counts, i, code)[k].code >= 0
    decreases |counts| - i
  {
    if i < |counts| {
      var n, c2 := counts[i], (code + counts[i]) * 2;
      var R, T := Run(i + 1, code, n), Generate(counts, i + 1, c2);
      var E: seq<CodeEntry> := R + T;
      GenerateCodes(counts, i + 1, c2);
      forall k | 0 <= k < |E| ensures E[k].code >= 0 {
        if k >= n {
          assert E[k] == T[k - n];
        }
      }
    }
  }

  /** The first code generated from length `i + 1` on is the counter shifted
      left once for every length without codes. */
  lemma {:induction false} GenerateFirst(counts: seq<Byte>, i: nat, code: int)
    requires i <= |counts|
    requires |Generate(counts, i, code)| > 0
    ensures Generate(counts, i, code)[0].depth >= i + 1
    ensures Generate(counts, i, code)[0].code
         == code * Pow2(Generate(counts, i, code)[0].depth - (i + 1))
    decreases |counts| - i
  {
    if counts[i] == 0 {
      var T := Generate(counts, i + 1, code * 2);
      assert Generate(counts, i, code) == T;
      GenerateFirst(counts, i + 1, code * 2);
      DoubleShift(code, T[0].depth - (i + 2));
    }
  }

  lemma {:induction false} GenerateSteps(counts: seq<Byte>, i: nat, code: int)
    requires i <= |counts|
    ensures forall k | 0 <= k < |Generate(counts, i, code)| - 1 ::
              CanonicalStep(Generate(counts, i, code)[k], Generate(counts, i, code)[k + 1])
    decreases |counts| - i
  {
    if i < |counts| {
      var n, c2 := counts[i], (code + counts[i]) * 2;
      var R, T := Run(i + 1, code, n), Generate(counts, i + 1, c2);
      var E: seq<CodeEntry> := R + T;
      GenerateSteps(counts, i + 1, c2);
      forall k | 0 <= k < |E| - 1 ensures CanonicalStep(E[k], E[k + 1]) {
        if k + 1 < n {
          assert E[k] == CodeEntry(i + 1, code + k);
          assert E[k + 1] == CodeEntry(i + 1, code + k + 1);
        } else if k + 1 == n {
          GenerateFirst(counts, i + 1, c2);
          assert E[k] == CodeEntry(i + 1, code + n - 1);
          assert E[k + 1] == T[0];
          DoubleShift(code + n, T[0].depth - (i + 2));
        } else {
          assert E[k] == T[k - n] && E[k + 1] == T[k - n + 1];
        }
      }
    }
  }

  // ---------------------------------------------------------------------
  // Prefix-freeness
  // ---------------------------------------------------------------------

  /** A code of length at most 16 covers the 16-bit strings in
      [Start(e), End(e)): those it is a prefix of. */
  function Start(e: CodeEntry): (start: int)
    requires 0 <= e.depth <= 16
  {
    e.code * Pow2(16 - e.depth)
  }

  function End(e: CodeEntry): (end: int)
    requires 0 <= e.depth <= 16
  {
    (e.code + 1) * Pow2(16 - e.depth)
  }

  lemma StepTiles(e: CodeEntry, f: CodeEntry)
    requires CanonicalStep(e, f) && 0 <= e.depth && f.depth <= 16
    ensures End(e) == Start(f)
  {
    Pow2Add(f.depth - e.depth, 16 - f.depth);
    MulAssoc(e.code + 1, Pow2(f.depth - e.depth), Pow2(16 - f.depth));
  }

  lemma StartBeforeEnd(e: CodeEntry)
    requires 0 <= e.depth <= 16 && e.code >= 0
    ensures Start(e) < End(e)
  {
    var p := Pow2(16 - e.depth);
    assert (e.code + 1) * p == e.code * p + p;
  }

  /** Entries related by `CanonicalStep` occupy disjoint intervals, in
      increasing order. */
  lemma {:induction false} Ordered(E: seq<CodeEntry>, k: nat, l: nat)
    requires forall j | 0 <= j < |E| :: 1 <= E[j].depth <= 16 && E[j].code >= 0
    requires forall j | 0 <= j < |E| - 1 :: CanonicalStep(E[j], E[j + 1])
    requires k < l < |E|
    ensures End(E[k]) <= Start(E[l])
    decreases l - k
  {
    StepTiles(E[l - 1], E[l]);
    if k < l - 1 {
      Ordered(E, k, l - 1);
      StartBeforeEnd(E[l - 1]);
    }
  }

  /** A code that fits its length and prefixes another lies over the start
      of the other's interval. */
  lemma PrefixInterval(a: CodeEntry, b: CodeEntry)
    requires 1 <= a.depth <= 16 && 1 <= b.depth <= 16
    requires 0 <= a.code < Pow2(a.depth) && 0 <= b.code < Pow2(b.depth)
    requires CodeBits(a) <= CodeBits(b)
    ensures Start(a) <= Start(b) < End(a)
  {
    var v := PrefixValue(a, b);
    ExtensionInterval(a, b, v);
  }

  /** The arithmetic of `PrefixInterval`. */
  lemma ExtensionInterval(a: CodeEntry, b: CodeEntry, v: int)
    requires 1 <= a.depth <= b.depth <= 16
    requires 0 <= v < Pow2(b.depth - a.depth) && b.code == a.code * Pow2(b.depth - a.depth) + v
    ensures Start(a) <= Start(b) < End(a)
  {
    var m := b.depth - a.depth;
    var p, q := Pow2(m), Pow2(16 - b.depth);
    Pow2Add(m, 16 - b.depth);
    assert m + (16 - b.depth) == 16 - a.depth;
    assert Pow2(16 - a.depth) == p * q;
    ScaleInterval(a.code, v, p, q);
  }

  /** A code that begins with another is that code followed by `v` in the
      remaining bits. */
  lemma PrefixValue(a: CodeEntry, b: CodeEntry) returns (v: nat)
    requires 1 <= a.depth <= 16 && 1 <= b.depth <= 16
    requires 0 <= a.code < Pow2(a.depth) && 0 <= b.code < Pow2(b.depth)
    requires CodeBits(a) <= CodeBits(b)
    ensures a.depth <= b.depth
    ensures v < Pow2(b.depth - a.depth) && b.code == a.code * Pow2(b.depth - a.depth) + v
  {
    var aa, bb := CodeBits(a), CodeBits(b);
    var rest := bb[|aa|..];
    assert aa == bb[..|aa|];
    SplitAt(bb, |aa|);
    ValueOfBitsOf(a.code, a.depth);
    ValueOfBitsOf(b.code, b.depth);
    ValueOfAppend(aa, rest);
    v := ValueOf(rest);
    var k := b.depth - a.depth;
    assert |rest| == k && ValueOf(aa) == a.code && ValueOf(bb) == b.code;
    assert b.code == a.code * Pow2(k) + v;
  }

  lemma ScaleInterval(c: int, v: int, p: int, q: int)
    requires 0 <= v < p && q > 0
    ensures c * (p * q) <= (c * p + v) * q < (c + 1) * (p * q)
  {
    assert (c * p + v) * q == c * (p * q) + v * q;
    MulLess(v, p, q);
    assert (c + 1) * (p * q) == c * (p * q) + p * q;
    if v > 0 {
      MulAtLeast(q, v);
      assert v * q == q * v;
    }
  }

  /** Codes with disjoint intervals are not prefixes of one another. */
  lemma DisjointNotPrefix(e: CodeEntry, f: CodeEntry)
    requires 1 <= e.depth <= 16 && 1 <= f.depth <= 16
    requires 0 <= e.code < Pow2(e.depth) && 0 <= f.code < Pow2(f.depth)
    requires End(e) <= Start(f)
    ensures !(CodeBits(e) <= CodeBits(f)) && !(CodeBits(f) <= CodeBits(e))
  {
    if CodeBits(e) <= CodeBits(f) {
      PrefixInterval(e, f);
      assert false;
    }
    if CodeBits(f) <= CodeBits(e) {
      PrefixInterval(f, e);
      StartBeforeEnd(e);
      assert false;
    }
  }

  // ---------------------------------------------------------------------
  // Codes fit their lengths
  // ---------------------------------------------------------------------

  /** The code counter once all lengths are done, one bit past the longest. */
  function FinalCode(counts: seq<Byte>, i: nat, code: int): (final: int)
    requires i <= |counts|
    decreases |counts| - i
  {
    if i == |counts| then code else FinalCode(counts, i + 1, (code + counts[i]) * 2)
  }

  /** Kraft's inequality for the table: the counter never passes 2^17 after
      length 16, so every code fits its length. */
  predicate Fits(table: seq<Byte>)
    requires |table| >= MaxCodeLength
  {
    FinalCode(table[..MaxCodeLength], 0, 0) <= Pow2(17)
  }

  lemma {:induction false} FinalLower(counts: seq<Byte>, i: nat, code: int)
    requires i <= |counts| && code >= 0
    ensures FinalCode(counts, i, code) >= code * Pow2(|counts| - i)
    decreases |counts| - i
  {
    if i < |counts| {
      var n := counts[i];
      FinalLower(counts, i + 1, (code + n) * 2);
      DoubleShift(code + n, |counts| - i - 1);
      MulMonotone(code, code + n, Pow2(|counts| - i));
    }
  }

  /** Each generated code, widened to length `|counts| + 1`, ends at or
      below the final counter. */
  lemma {:induction false} EntryBelowFinal(counts: seq<Byte>, i: nat, code: int)
    requires i <= |counts| && code >= 0
    ensures forall k | 0 <= k < |Generate(counts, i, code)| ::
              Generate(counts, i, code)[k].depth <= |counts| + 1 &&
              (Generate(counts, i, code)[k].code + 1) * Pow2(|counts| + 1 - Generate(counts, i, code)[k].depth)
                <= FinalCode(counts, i, code)
    decreases |counts| - i
  {
    GenerateDepths(counts, i, code);
    if i < |counts| {
      var n, c2 := counts[i], (code + counts[i]) * 2;
      var R, T := Run(i + 1, code, n), Generate(counts, i + 1, c2);
      var E: seq<CodeEntry> := R + T;
      EntryBelowFinal(counts, i + 1, c2);
      FinalLower(counts, i + 1, c2);
      DoubleShift(code + n, |counts| - i - 1);
      forall k | 0 <= k < |E|
        ensures (E[k].code + 1) * Pow2(|counts| + 1 - E[k].depth) <= FinalCode(counts, i, code)
      {
        if k < n {
          assert E[k] == CodeEntry(i + 1, code + k);
          MulMonotone(code + k + 1, code + n, Pow2(|counts| - i));
        } else {
          assert E[k] == T[k - n];
        }
      }
    }
  }

  /** In a table that satisfies Kraft's inequality every code fits its length. */
  lemma CodesFit(table: seq<Byte>)
    requires |table| >= MaxCodeLength && Fits(table)
    ensures forall k | 0 <= k < |CodeSequence(table)| ::
              1 <= CodeSequence(table)[k].depth <= 16 &&
              0 <= CodeSequence(table)[k].code < Pow2(CodeSequence(table)[k].depth)
  {
    var counts := table[..MaxCodeLength];
    var E := CodeSequence(table);
    GenerateDepths(counts, 0, 0);
    GenerateCodes(counts, 0, 0);
    EntryBelowFinal(counts, 0, 0);
    forall k | 0 <= k < |E| ensures E[k].code < Pow2(E[k].depth) {
      var d := E[k].depth;
      Pow2Add(d, 17 - d);
      if E[k].code + 1 > Pow2(d) {
        MulLess(Pow2(d), E[k].code + 1, Pow2(17 - d));
        assert false;
      }
    }
  }

  /** The canonical code of a table satisfying Kraft's inequality is
      prefix-free: no entry's bits begin another entry's bits. */
  lemma PrefixFree(table: seq<Byte>)
    requires |table| >= MaxCodeLength && Fits(table)
    ensures forall k | 0 <= k < |CodeSequence(table)| :: 1 <= CodeSequence(table)[k].depth <= 16
    ensures forall k, l | 0 <= k < |CodeSequence(table)| && 0 <= l < |CodeSequence(table)| && k != l ::
              !(CodeBits(CodeSequence(table)[k]) <= CodeBits(CodeSequence(table)[l]))
  {
    var counts := table[..MaxCodeLength];
    var E := CodeSequence(table);
    CodesFit(table);
    GenerateSteps(counts, 0, 0);
    forall k, l | 0 <= k < |E| && 0 <= l < |E| && k != l
      ensures !(CodeBits(E[k]) <= CodeBits(E[l]))
    {
      if k < l {
        Ordered(E, k, l);
        DisjointNotPrefix(E[k], E[l]);
      } else {
        Ordered(E, l, k);
        DisjointNotPrefix(E[l], E[k]);
      }
    }
  }

  // ---------------------------------------------------------------------
  // Code lengths follow the counts
  // ---------------------------------------------------------------------

  lemma {:induction false} TotalAppend(a: seq<Byte>, b: seq<Byte>)
    ensures Total(a + b) == Total(a) + Total(b)
    decreases |a|
  {
    if |a| > 0 {
      TotalAppend(a[1..], b);
      assert (a + b)[1..] == a[1..] + b;
    } else {
      assert a + b == b;
    }
  }

  lemma TotalStep(counts: seq<Byte>, i: nat)
    requires i < |counts|
    ensures Total(counts[..i + 1]) == Total(counts[..i]) + counts[i]
  {
    assert counts[..i + 1] == counts[..i] + [counts[i]];
    TotalAppend(counts[..i], [counts[i]]);
    assert [counts[i]][1..] == [];
  }

  lemma {:induction false} GenerateBuckets(counts: seq<Byte>, i: nat, code: int)
    requires i <= |counts|
    ensures forall k | 0 <= k < |Generate(counts, i, code)| ::
              i + 1 <= Generate(counts, i, code)[k].depth <= |counts| &&
              Total(counts[..Generate(counts, i, code)[k].depth - 1]) <= Total(counts[..i]) + k
                < Total(counts[..Generate(counts, i, code)[k].depth])
    decreases |counts| - i
  {
    GenerateDepths(counts, i, code);
    if i < |counts| {
      var n, c2 := counts[i], (code + counts[i]) * 2;
      var R, T := Run(i + 1, code, n), Generate(counts, i + 1, c2);
      var E: seq<CodeEntry> := R + T;
      GenerateBuckets(counts, i + 1, c2);
      TotalStep(counts, i);
      forall k | 0 <= k < |E|
        ensures Total(counts[..E[k].depth - 1]) <= Total(counts[..i]) + k < Total(counts[..E[k].depth])
      {
        if k < n {
          assert E[k] == CodeEntry(i + 1, code + k);
        } else {
          assert E[k] == T[k - n];
        }
      }
    }
  }

  /** The k-th code gets length `d` exactly when k falls in the d-th count
      bucket: at least the number of shorter codes, below that number plus
      the count for length `d`. */
  lemma CodeLengths(table: seq<Byte>)
    requires |table| >= MaxCodeLength
    ensures forall k | 0 <= k < |CodeSequence(table)| ::
              1 <= CodeSequence(table)[k].depth <= MaxCodeLength &&
              Total(table[..CodeSequence(table)[k].depth - 1]) <= k < Total(table[..CodeSequence(table)[k].depth])
  {
    var counts := table[..MaxCodeLength];
    GenerateBuckets(counts, 0, 0);
    assert Total(counts[..0]) == 0;
    forall d | 0 <= d <= MaxCodeLength ensures counts[..d] == table[..d] {
    }
  }

  // ---------------------------------------------------------------------
  // The code list
  // ---------------------------------------------------------------------

  /** The map holds exactly the assigned symbols, each with the entry at its
      last occurrence. */
  lemma {:induction false} AssignSpec(syms: seq<Byte>, entries: seq<CodeEntry>, k: nat)
    requires k <= |syms| && k <= |entries|
    ensures Assign(syms, entries, k).Keys == set j | 0 <= j < k :: syms[j] as int
    ensures forall s | s in Assign(syms, entries, k) ::
              exists j | 0 <= j < k :: syms[j] == s && Assign(syms, entries, k)[s] == entries[j]
    ensures forall j | 0 <= j < k && (forall l | j < l < k :: syms[l] != syms[j]) ::
              Assign(syms, entries, k)[syms[j]] == entries[j]
  {
    if k > 0 {
      AssignSpec(syms, entries, k - 1);
      var m := Assign(syms, entries, k - 1);
      assert (set j | 0 <= j < k :: syms[j] as int)
          == (set j | 0 <= j < k - 1 :: syms[j] as int) + {syms[k - 1] as int};
    }
  }

  /** Distinct symbols of a table satisfying Kraft's inequality get codes
      that are not prefixes of one another. */
  lemma CodeListPrefixFree(table: seq<Byte>)
    requires WellFormed(table) && Fits(table)
    ensures CodeList(table).Keys == set j | 0 <= j < Size(table) :: Symbols(table)[j] as int
    ensures forall s | s in CodeList(table) :: 1 <= CodeList(table)[s].depth <= 16
    ensures forall s, t | s in CodeList(table) && t in CodeList(table) && s != t ::
              !(CodeBits(CodeList(table)[s]) <= CodeBits(CodeList(table)[t]))
  {
    var syms, E, m := Symbols(table), CodeSequence(table), CodeList(table);
    AssignSpec(syms, E, Size(table));
    PrefixFree(table);
    forall s | s in m ensures 1 <= m[s].depth <= 16 {
      var j :| 0 <= j < Size(table) && syms[j] == s && m[s] == E[j];
    }
    forall s, t | s in m && t in m && s != t ensures !(CodeBits(m[s]) <= CodeBits(m[t])) {
      var j :| 0 <= j < Size(table) && syms[j] == s && m[s] == E[j];
      var l :| 0 <= l < Size(table) && syms[l] == t && m[t] == E[l];
    }
  }

  // ---------------------------------------------------------------------
  // Which symbols have codes
  // ---------------------------------------------------------------------

  /** Every symbol listed in a table gets a code. */
  lemma SymbolHasCode(table: seq<Byte>, j: nat)
    requires WellFormed(table) && j < Size(table)
    ensures Symbols(table)[j] as int in CodeList(table)
  {
    AssignSpec(Symbols(table), CodeSequence(table), Size(table));
    assert Symbols(table)[j] as int in set i | 0 <= i < Size(table) :: Symbols(table)[i] as int;
  }

  /** The symbols a DC code list must code: the categories 0..11 of a DC
      difference of 8-bit samples (section F.1.2.1 of ITU-T T.81). */
  predicate DcCovered(m: map<int, CodeEntry>)
  {
    forall s | 0 <= s < 12 :: s in m
  }

  /** The symbols an AC code list must code: end of block (0x00), a run of
      sixteen zeros (0xF0), and every run 0..15 with every category 1..10
      (section F.1.2.2 of ITU-T T.81). */
  predicate AcCovered(m: map<int, CodeEntry>)
  {
    && 0x00 in m
    && 0xF0 in m
    && forall r, s | 0 <= r < 16 && 1 <= s <= 10 :: AcSymbol(r, s) in m
  }

  /** The symbol of an AC run/size pair, `(run << 4) | size`. */
  function AcSymbol(run: int, size: int): (symbol: int)
  {
    run * 16 + size
  }

  // ---------------------------------------------------------------------
  // The standard tables
  // ---------------------------------------------------------------------

  /** A table is its counts followed by its symbols. */
  lemma TableParts(counts: seq<Byte>, syms: seq<Byte>)
    requires |counts| == MaxCodeLength && Total(counts) == |syms| <= 256
    ensures WellFormed(counts + syms)
    ensures (counts + syms)[..MaxCodeLength] == counts
    ensures Size(counts + syms) == |syms| && Symbols(counts + syms) == syms
  {
    assert (counts + syms)[..MaxCodeLength] == counts;
  }

  lemma TotalSuffix(counts: seq<Byte>, i: nat)
    requires i < |counts|
    ensures Total(counts[i..]) == counts[i] + Total(counts[i + 1..])
  {
    assert counts[i..][1..] == counts[i + 1..];
  }

  /** The same sum, indexed instead of sliced. */
  function SumFrom(c: seq<Byte>, i: nat): (t: nat)
    requires i <= |c|
    decreases |c| - i
  {
    if i == |c| then 0 else c[i] + SumFrom(c, i + 1)
  }

  lemma {:induction false} TotalSumFrom(c: seq<Byte>, i: nat)
    requires i <= |c|
    ensures Total(c[i..]) == SumFrom(c, i)
    decreases |c| - i
  {
    if i < |c| {
      TotalSuffix(c, i);
      TotalSumFrom(c, i + 1);
    }
  }

  /** The count of codes of a 16-entry `BITS` list, written out. */
  lemma TotalSixteen(c: seq<Byte>)
    requires |c| == 16
    ensures Total(c) == c[0] as int + c[1] + c[2] + c[3] + c[4] + c[5] + c[6] + c[7] + c[8] + c[9] + c[10] + c[11] + c[12] + c[13] + c[14] + c[15]
  {
    TotalSumFrom(c, 0);
    assert c[0..] == c;
    assert SumFrom(c, 0) == c[0] + SumFrom(c, 1);
    assert SumFrom(c, 1) == c[1] + SumFrom(c, 2);
    assert SumFrom(c, 2) == c[2] + SumFrom(c, 3);
    assert SumFrom(c, 3) == c[3] + SumFrom(c, 4);
    assert SumFrom(c, 4) == c[4] + SumFrom(c, 5);
    assert SumFrom(c, 5) == c[5] + SumFrom(c, 6);
    assert SumFrom(c, 6) == c[6] + SumFrom(c, 7);
    assert SumFrom(c, 7) == c[7] + SumFrom(c, 8);
    assert SumFrom(c, 8) == c[8] + SumFrom(c, 9);
    assert SumFrom(c, 9) == c[9] + SumFrom(c, 10);
    assert SumFrom(c, 10) == c[10] + SumFrom(c, 11);
    assert SumFrom(c, 11) == c[11] + SumFrom(c, 12);
    assert SumFrom(c, 12) == c[12] + SumFrom(c, 13);
    assert SumFrom(c, 13) == c[13] + SumFrom(c, 14);
    assert SumFrom(c, 14) == c[14] + SumFrom(c, 15);
    assert SumFrom(c, 15) == c[15] + SumFrom(c, 16);
    assert SumFrom(c, 16) == 0;
  }

  lemma FinalCodeStep(counts: seq<Byte>, i: nat, code: int, next: int)
    requires i < |counts| && next == (code + counts[i]) * 2
    ensures FinalCode(counts, i, code) == FinalCode(counts, i + 1, next)
  {
  }


  lemma LuminDcTotal(c: seq<Byte>)
    requires |c| == 16
    requires c[0] == 0 && c[1] == 1 && c[2] == 5 && c[3] == 1 && c[4] == 1 && c[5] == 1 && c[6] == 1 && c[7] == 1
    requires c[8] == 1 && c[9] == 0 && c[10] == 0 && c[11] == 0 && c[12] == 0 && c[13] == 0 && c[14] == 0 && c[15] == 0
    ensures Total(c) == 12
  {
    TotalSixteen(c);
  }

  lemma LuminDcKraft(c: seq<Byte>)
    requires |c| == 16
    requires c[0] == 0 && c[1] == 1 && c[2] == 5 && c[3] == 1 && c[4] == 1 && c[5] == 1 && c[6] == 1 && c[7] == 1
    requires c[8] == 1 && c[9] == 0 && c[10] == 0 && c[11] == 0 && c[12] == 0 && c[13] == 0 && c[14] == 0 && c[15] == 0
    ensures FinalCode(c, 0, 0) == 130816
  {
    FinalCodeStep(c, 0, 0, 0);
    FinalCodeStep(c, 1, 0, 2);
    FinalCodeStep(c, 2, 2, 14);
    FinalCodeStep(c, 3, 14, 30);
    FinalCodeStep(c, 4, 30, 62);
    FinalCodeStep(c, 5, 62, 126);
    FinalCodeStep(c, 6, 126, 254);
    FinalCodeStep(c, 7, 254, 510);
    FinalCodeStep(c, 8, 510, 1022);
    FinalCodeStep(c, 9, 1022, 2044);
    FinalCodeStep(c, 10, 2044, 4088);
    FinalCodeStep(c, 11, 4088, 8176);
    FinalCodeStep(c, 12, 8176, 16352);
    FinalCodeStep(c, 13, 16352, 32704);
    FinalCodeStep(c, 14, 32704, 65408);
    FinalCodeStep(c, 15, 65408, 130816);
  }

  lemma LuminDcCountsValues()
    ensures |LuminDcCounts| == 16
    ensures LuminDcCounts[0] == 0 && LuminDcCounts[1] == 1 && LuminDcCounts[2] == 5 && LuminDcCounts[3] == 1 && LuminDcCounts[4] == 1 && LuminDcCounts[5] == 1 && LuminDcCounts[6] == 1 && LuminDcCounts[7] == 1
    ensures LuminDcCounts[8] == 1 && LuminDcCounts[9] == 0 && LuminDcCounts[10] == 0 && LuminDcCounts[11] == 0 && LuminDcCounts[12] == 0 && LuminDcCounts[13] == 0 && LuminDcCounts[14] == 0 && LuminDcCounts[15] == 0
  {
  }

  lemma LuminDcSymbolsLength()
    ensures |LuminDcSymbols| == 12
  {
  }

  lemma LuminDcFits()
    ensures WellFormed(LuminDc) && Fits(LuminDc) && Size(LuminDc) == 12
    ensures Symbols(LuminDc) == LuminDcSymbols
  {
    LuminDcCountsValues();
    LuminDcSymbolsLength();
    var c := LuminDcCounts;
    LuminDcTotal(c);
    LuminDcKraft(c);
    TableParts(c, LuminDcSymbols);
    Pow2Seventeen();
  }

  lemma ChromDcTotal(c: seq<Byte>)
    requires |c| == 16
    requires c[0] == 0 && c[1] == 3 && c[2] == 1 && c[3] == 1 && c[4] == 1 && c[5] == 1 && c[6] == 1 && c[7] == 1
    requires c[8] == 1 && c[9] == 1 && c[10] == 1 && c[11] == 0 && c[12] == 0 && c[13] == 0 && c[14] == 0 && c[15] == 0
    ensures Total(c) == 12
  {
    TotalSixteen(c);
  }

  lemma ChromDcKraft(c: seq<Byte>)
    requires |c| == 16
    requires c[0] == 0 && c[1] == 3 && c[2] == 1 && c[3] == 1 && c[4] == 1 && c[5] == 1 && c[6] == 1 && c[7] == 1
    requires c[8] == 1 && c[9] == 1 && c[10] == 1 && c[11] == 0 && c[12] == 0 && c[13] == 0 && c[14] == 0 && c[15] == 0
    ensures FinalCode(c, 0, 0) == 131008
  {
    FinalCodeStep(c, 0, 0, 0);
    FinalCodeStep(c, 1, 0, 6);
    FinalCodeStep(c, 2, 6, 14);
    FinalCodeStep(c, 3, 14, 30);
    FinalCodeStep(c, 4, 30, 62);
    FinalCodeStep(c, 5, 62, 126);
    FinalCodeStep(c, 6, 126, 254);
    FinalCodeStep(c, 7, 254, 510);
    FinalCodeStep(c, 8, 510, 1022);
    FinalCodeStep(c, 9, 1022, 2046);
    FinalCodeStep(c, 10, 2046, 4094);
    FinalCodeStep(c, 11, 4094, 8188);
    FinalCodeStep(c, 12, 8188, 16376);
    FinalCodeStep(c, 13, 16376, 32752);
    FinalCodeStep(c, 14, 32752, 65504);
    FinalCodeStep(c, 15, 65504, 131008);
  }

  lemma ChromDcCountsValues()
    ensures |ChromDcCounts| == 16
    ensures ChromDcCounts[0] == 0 && ChromDcCounts[1] == 3 && ChromDcCounts[2] == 1 && ChromDcCounts[3] == 1 && ChromDcCounts[4] == 1 && ChromDcCounts[5] == 1 && ChromDcCounts[6] == 1 && ChromDcCounts[7] == 1
    ensures ChromDcCounts[8] == 1 && ChromDcCounts[9] == 1 && ChromDcCounts[10] == 1 && ChromDcCounts[11] == 0 && ChromDcCounts[12] == 0 && ChromDcCounts[13] == 0 && ChromDcCounts[14] == 0 && ChromDcCounts[15] == 0
  {
  }

  lemma ChromDcSymbolsLength()
    ensures |ChromDcSymbols| == 12
  {
  }

  lemma ChromDcFits()
    ensures WellFormed(ChromDc) && Fits(ChromDc) && Size(ChromDc) == 12
    ensures Symbols(ChromDc) == ChromDcSymbols
  {
    ChromDcCountsValues();
    ChromDcSymbolsLength();
    var c := ChromDcCounts;
    ChromDcTotal(c);
    ChromDcKraft(c);
    TableParts(c, ChromDcSymbols);
    Pow2Seventeen();
  }

  lemma LuminAcTotal(c: seq<Byte>)
    requires |c| == 16
    requires c[0] == 0 && c[1] == 2 && c[2] == 1 && c[3] == 3 && c[4] == 3 && c[5] == 2 && c[6] == 4 && c[7] == 3
    requires c[8] == 5 && c[9] == 5 && c[10] == 4 && c[11] == 4 && c[12] == 0 && c[13] == 0 && c[14] == 1 && c[15] == 125
    ensures Total(c) == 162
  {
    TotalSixteen(c);
  }

  lemma LuminAcKraft(c: seq<Byte>)
    requires |c| == 16
    requires c[0] == 0 && c[1] == 2 && c[2] == 1 && c[3] == 3 && c[4] == 3 && c[5] == 2 && c[6] == 4 && c[7] == 3
    requires c[8] == 5 && c[9] == 5 && c[10] == 4 && c[11] == 4 && c[12] == 0 && c[13] == 0 && c[14] == 1 && c[15] == 125
    ensures FinalCode(c, 0, 0) == 131070
  {
    FinalCodeStep(c, 0, 0, 0);
    FinalCodeStep(c, 1, 0, 4);
    FinalCodeStep(c, 2, 4, 10);
    FinalCodeStep(c, 3, 10, 26);
    FinalCodeStep(c, 4, 26, 58);
    FinalCodeStep(c, 5, 58, 120);
    FinalCodeStep(c, 6, 120, 248);
    FinalCodeStep(c, 7, 248, 502);
    FinalCodeStep(c, 8, 502, 1014);
    FinalCodeStep(c, 9, 1014, 2038);
    FinalCodeStep(c, 10, 2038, 4084);
    FinalCodeStep(c, 11, 4084, 8176);
    FinalCodeStep(c, 12, 8176, 16352);
    FinalCodeStep(c, 13, 16352, 32704);
    FinalCodeStep(c, 14, 32704, 65410);
    FinalCodeStep(c, 15, 65410, 131070);
  }

  lemma LuminAcCountsValues()
    ensures |LuminAcCounts| == 16
    ensures LuminAcCounts[0] == 0 && LuminAcCounts[1] == 2 && LuminAcCounts[2] == 1 && LuminAcCounts[3] == 3 && LuminAcCounts[4] == 3 && LuminAcCounts[5] == 2 && LuminAcCounts[6] == 4 && LuminAcCounts[7] == 3
    ensures LuminAcCounts[8] == 5 && LuminAcCounts[9] == 5 && LuminAcCounts[10] == 4 && LuminAcCounts[11] == 4 && LuminAcCounts[12] == 0 && LuminAcCounts[13] == 0 && LuminAcCounts[14] == 1 && LuminAcCounts[15] == 125
  {
  }

  lemma LuminAcSymbolsLength()
    ensures |LuminAcSymbols| == 162
  {
  }

  lemma LuminAcFits()
    ensures WellFormed(LuminAc) && Fits(LuminAc) && Size(LuminAc) == 162
    ensures Symbols(LuminAc) == LuminAcSymbols
  {
    LuminAcCountsValues();
    LuminAcSymbolsLength();
    var c := LuminAcCounts;
    LuminAcTotal(c);
    LuminAcKraft(c);
    TableParts(c, LuminAcSymbols);
    Pow2Seventeen();
  }

  lemma ChromAcTotal(c: seq<Byte>)
    requires |c| == 16
    requires c[0] == 0 && c[1] == 2 && c[2] == 1 && c[3] == 2 && c[4] == 4 && c[5] == 4 && c[6] == 3 && c[7] == 4
    requires c[8] == 7 && c[9] == 5 && c[10] == 4 && c[11] == 4 && c[12] == 0 && c[13] == 1 && c[14] == 2 && c[15] == 119
    ensures Total(c) == 162
  {
    TotalSixteen(c);
  }

  lemma ChromAcKraft(c: seq<Byte>)
    requires |c| == 16
    requires c[0] == 0 && c[1] == 2 && c[2] == 1 && c[3] == 2 && c[4] == 4 && c[5] == 4 && c[6] == 3 && c[7] == 4
    requires c[8] == 7 && c[9] == 5 && c[10] == 4 && c[11] == 4 && c[12] == 0 && c[13] == 1 && c[14] == 2 && c[15] == 119
    ensures FinalCode(c, 0, 0) == 131070
  {
    FinalCodeStep(c, 0, 0, 0);
    FinalCodeStep(c, 1, 0, 4);
    FinalCodeStep(c, 2, 4, 10);
    FinalCodeStep(c, 3, 10, 24);
    FinalCodeStep(c, 4, 24, 56);
    FinalCodeStep(c, 5, 56, 120);
    FinalCodeStep(c, 6, 120, 246);
    FinalCodeStep(c, 7, 246, 500);
    FinalCodeStep(c, 8, 500, 1014);
    FinalCodeStep(c, 9, 1014, 2038);
    FinalCodeStep(c, 10, 2038, 4084);
    FinalCodeStep(c, 11, 4084, 8176);
    FinalCodeStep(c, 12, 8176, 16352);
    FinalCodeStep(c, 13, 16352, 32706);
    FinalCodeStep(c, 14, 32706, 65416);
    FinalCodeStep(c, 15, 65416, 131070);
  }

  lemma ChromAcCountsValues()
    ensures |ChromAcCounts| == 16
    ensures ChromAcCounts[0] == 0 && ChromAcCounts[1] == 2 && ChromAcCounts[2] == 1 && ChromAcCounts[3] == 2 && ChromAcCounts[4] == 4 && ChromAcCounts[5] == 4 && ChromAcCounts[6] == 3 && ChromAcCounts[7] == 4
    ensures ChromAcCounts[8] == 7 && ChromAcCounts[9] == 5 && ChromAcCounts[10] == 4 && ChromAcCounts[11] == 4 && ChromAcCounts[12] == 0 && ChromAcCounts[13] == 1 && ChromAcCounts[14] == 2 && ChromAcCounts[15] == 119
  {
  }

  lemma ChromAcSymbolsLength()
    ensures |ChromAcSymbols| == 162
  {
  }

  lemma ChromAcFits()
    ensures WellFormed(ChromAc) && Fits(ChromAc) && Size(ChromAc) == 162
    ensures Symbols(ChromAc) == ChromAcSymbols
  {
    ChromAcCountsValues();
    ChromAcSymbolsLength();
    var c := ChromAcCounts;
    ChromAcTotal(c);
    ChromAcKraft(c);
    TableParts(c, ChromAcSymbols);
    Pow2Seventeen();
  }

  /** A symbol listed at some position of a table gets a code. */
  lemma ListedHasCode(table: seq<Byte>, syms: seq<Byte>, j: nat, v: int)
    requires WellFormed(table) && Symbols(table) == syms
    requires j < |syms| && syms[j] as int == v
    ensures v in CodeList(table)
  {
    SymbolHasCode(table, j);
  }

  /** A table whose symbols are 0..11 in order covers the DC categories. */
  lemma DcCoveredBy(table: seq<Byte>, syms: seq<Byte>)
    requires WellFormed(table) && Symbols(table) == syms && |syms| == 12
    requires syms[0] == 0 && syms[1] == 1 && syms[2] == 2 && syms[3] == 3 && syms[4] == 4 && syms[5] == 5
    requires syms[6] == 6 && syms[7] == 7 && syms[8] == 8 && syms[9] == 9 && syms[10] == 10 && syms[11] == 11
    ensures DcCovered(CodeList(table))
  {
    forall s | 0 <= s < 12 ensures s in CodeList(table) {
      ListedHasCode(table, syms, s, s);
    }
  }

  lemma LuminDcSymbolsValues()
    ensures |LuminDcSymbols| == 12
    ensures LuminDcSymbols[0] == 0 && LuminDcSymbols[1] == 1 && LuminDcSymbols[2] == 2 && LuminDcSymbols[3] == 3 && LuminDcSymbols[4] == 4 && LuminDcSymbols[5] == 5
    ensures LuminDcSymbols[6] == 6 && LuminDcSymbols[7] == 7 && LuminDcSymbols[8] == 8 && LuminDcSymbols[9] == 9 && LuminDcSymbols[10] == 10 && LuminDcSymbols[11] == 11
  {
  }

  lemma LuminDcCovered()
    ensures WellFormed(LuminDc) && DcCovered(CodeList(LuminDc))
  {
    LuminDcFits();
    LuminDcSymbolsValues();
    DcCoveredBy(LuminDc, LuminDcSymbols);
  }

  lemma ChromDcSymbolsValues()
    ensures |ChromDcSymbols| == 12
    ensures ChromDcSymbols[0] == 0 && ChromDcSymbols[1] == 1 && ChromDcSymbols[2] == 2 && ChromDcSymbols[3] == 3 && ChromDcSymbols[4] == 4 && ChromDcSymbols[5] == 5
    ensures ChromDcSymbols[6] == 6 && ChromDcSymbols[7] == 7 && ChromDcSymbols[8] == 8 && ChromDcSymbols[9] == 9 && ChromDcSymbols[10] == 10 && ChromDcSymbols[11] == 11
  {
  }

  lemma ChromDcCovered()
    ensures WellFormed(ChromDc) && DcCovered(CodeList(ChromDc))
  {
    ChromDcFits();
    ChromDcSymbolsValues();
    DcCoveredBy(ChromDc, ChromDcSymbols);
  }

  lemma LuminAcRun0(table: seq<Byte>, syms: seq<Byte>)
    requires WellFormed(table) && Symbols(table) == syms && |syms| == 162
    requires syms[0] == 1 && syms[1] == 2 && syms[2] == 3 && syms[4] == 4 && syms[6] == 5
    requires syms[11] == 6 && syms[15] == 7 && syms[23] == 8 && syms[37] == 9 && syms[38] == 10
    ensures forall s | 1 <= s <= 10 :: AcSymbol(0, s) in CodeList(table)
  {
    forall s | 1 <= s <= 10 ensures AcSymbol(0, s) in CodeList(table) {
      if s == 1 {
        ListedHasCode(table, syms, 0, AcSymbol(0, s));
      } else if s == 2 {
        ListedHasCode(table, syms, 1, AcSymbol(0, s));
      } else if s == 3 {
        ListedHasCode(table, syms, 2, AcSymbol(0, s));
      } else if s == 4 {
        ListedHasCode(table, syms, 4, AcSymbol(0, s));
      } else if s == 5 {
        ListedHasCode(table, syms, 6, AcSymbol(0, s));
      } else if s == 6 {
        ListedHasCode(table, syms, 11, AcSymbol(0, s));
      } else if s == 7 {
        ListedHasCode(table, syms, 15, AcSymbol(0, s));
      } else if s == 8 {
        ListedHasCode(table, syms, 23, AcSymbol(0, s));
      } else if s == 9 {
        ListedHasCode(table, syms, 37, AcSymbol(0, s));
      } else {
        ListedHasCode(table, syms, 38, AcSymbol(0, s));
      }
    }
  }

  lemma LuminAcRun0Values()
    ensures |LuminAcSymbols| == 162
    ensures LuminAcSymbols[0] == 1 && LuminAcSymbols[1] == 2 && LuminAcSymbols[2] == 3 && LuminAcSymbols[4] == 4 && LuminAcSymbols[6] == 5
    ensures LuminAcSymbols[11] == 6 && LuminAcSymbols[15] == 7 && LuminAcSymbols[23] == 8 && LuminAcSymbols[37] == 9 && LuminAcSymbols[38] == 10
  {
  }

  lemma LuminAcRun1(table: seq<Byte>, syms: seq<Byte>)
    requires WellFormed(table) && Symbols(table) == syms && |syms| == 162
    requires syms[5] == 17 && syms[7] == 18 && syms[12] == 19 && syms[18] == 20 && syms[28] == 21
    requires syms[39] == 22 && syms[40] == 23 && syms[41] == 24 && syms[42] == 25 && syms[43] == 26
    ensures forall s | 1 <= s <= 10 :: AcSymbol(1, s) in CodeList(table)
  {
    forall s | 1 <= s <= 10 ensures AcSymbol(1, s) in CodeList(table) {
      if s == 1 {
        ListedHasCode(table, syms, 5, AcSymbol(1, s));
      } else if s == 2 {
        ListedHasCode(table, syms, 7, AcSymbol(1, s));
      } else if s == 3 {
        ListedHasCode(table, syms, 12, AcSymbol(1, s));
      } else if s == 4 {
        ListedHasCode(table, syms, 18, AcSymbol(1, s));
      } else if s == 5 {
        ListedHasCode(table, syms, 28, AcSymbol(1, s));
      } else if s == 6 {
        ListedHasCode(table, syms, 39, AcSymbol(1, s));
      } else if s == 7 {
        ListedHasCode(table, syms, 40, AcSymbol(1, s));
      } else if s == 8 {
        ListedHasCode(table, syms, 41, AcSymbol(1, s));
      } else if s == 9 {
        ListedHasCode(table, syms, 42, AcSymbol(1, s));
      } else {
        ListedHasCode(table, syms, 43, AcSymbol(1, s));
      }
    }
  }

  lemma LuminAcRun1Values()
    ensures |LuminAcSymbols| == 162
    ensures LuminAcSymbols[5] == 17 && LuminAcSymbols[7] == 18 && LuminAcSymbols[12] == 19 && LuminAcSymbols[18] == 20 && LuminAcSymbols[28] == 21
    ensures LuminAcSymbols[39] == 22 && LuminAcSymbols[40] == 23 && LuminAcSymbols[41] == 24 && LuminAcSymbols[42] == 25 && LuminAcSymbols[43] == 26
  {
  }

  lemma LuminAcRun2(table: seq<Byte>, syms: seq<Byte>)
    requires WellFormed(table) && Symbols(table) == syms && |syms| == 162
    requires syms[8] == 33 && syms[16] == 34 && syms[24] == 35 && syms[32] == 36 && syms[44] == 37
    requires syms[45] == 38 && syms[46] == 39 && syms[47] == 40 && syms[48] == 41 && syms[49] == 42
    ensures forall s | 1 <= s <= 10 :: AcSymbol(2, s) in CodeList(table)
  {
    forall s | 1 <= s <= 10 ensures AcSymbol(2, s) in CodeList(table) {
      if s == 1 {
        ListedHasCode(table, syms, 8, AcSymbol(2, s));
      } else if s == 2 {
        ListedHasCode(table, syms, 16, AcSymbol(2, s));
      } else if s == 3 {
        ListedHasCode(table, syms, 24, AcSymbol(2, s));
      } else if s == 4 {
        ListedHasCode(table, syms, 32, AcSymbol(2, s));
      } else if s == 5 {
        ListedHasCode(table, syms, 44, AcSymbol(2, s));
      } else if s == 6 {
        ListedHasCode(table, syms, 45, AcSymbol(2, s));
      } else if s == 7 {
        ListedHasCode(table, syms, 46, AcSymbol(2, s));
      } else if s == 8 {
        ListedHasCode(table, syms, 47, AcSymbol(2, s));
      } else if s == 9 {
        ListedHasCode(table, syms, 48, AcSymbol(2, s));
      } else {
        ListedHasCode(table, syms, 49, AcSymbol(2, s));
      }
    }
  }

  lemma LuminAcRun2Values()
    ensures |LuminAcSymbols| == 162
    ensures LuminAcSymbols[8] == 33 && LuminAcSymbols[16] == 34 && LuminAcSymbols[24] == 35 && LuminAcSymbols[32] == 36 && LuminAcSymbols[44] == 37
    ensures LuminAcSymbols[45] == 38 && LuminAcSymbols[46] == 39 && LuminAcSymbols[47] == 40 && LuminAcSymbols[48] == 41 && LuminAcSymbols[49] == 42
  {
  }

  lemma LuminAcRun3(table: seq<Byte>, syms: seq<Byte>)
    requires WellFormed(table) && Symbols(table) == syms && |syms| == 162
    requires syms[9] == 49 && syms[19] == 50 && syms[33] == 51 && syms[50] == 52 && syms[51] == 53
    requires syms[52] == 54 && syms[53] == 55 && syms[54] == 56 && syms[55] == 57 && syms[56] == 58
    ensures forall s | 1 <= s <= 10 :: AcSymbol(3, s) in CodeList(table)
  {
    forall s | 1 <= s <= 10 ensures AcSymbol(3, s) in CodeList(table) {
      if s == 1 {
        ListedHasCode(table, syms, 9, AcSymbol(3, s));
      } else if s == 2 {
        ListedHasCode(table, syms, 19, AcSymbol(3, s));
      } else if s == 3 {
        ListedHasCode(table, syms, 33, AcSymbol(3, s));
      } else if s == 4 {
        ListedHasCode(table, syms, 50, AcSymbol(3, s));
      } else if s == 5 {
        ListedHasCode(table, syms, 51, AcSymbol(3, s));
      } else if s == 6 {
        ListedHasCode(table, syms, 52, AcSymbol(3, s));
      } else if s == 7 {
        ListedHasCode(table, syms, 53, AcSymbol(3, s));
      } else if s == 8 {
        ListedHasCode(table, syms, 54, AcSymbol(3, s));
      } else if s == 9 {
        ListedHasCode(table, syms, 55, AcSymbol(3, s));
      } else {
        ListedHasCode(table, syms, 56, AcSymbol(3, s));
      }
    }
  }

  lemma LuminAcRun3Values()
    ensures |LuminAcSymbols| == 162
    ensures LuminAcSymbols[9] == 49 && LuminAcSymbols[19] == 50 && LuminAcSymbols[33] == 51 && LuminAcSymbols[50] == 52 && LuminAcSymbols[51] == 53
    ensures LuminAcSymbols[52] == 54 && LuminAcSymbols[53] == 55 && LuminAcSymbols[54] == 56 && LuminAcSymbols[55] == 57 && LuminAcSymbols[56] == 58
  {
  }

  lemma LuminAcRun4(table: seq<Byte>, syms: seq<Byte>)
    requires WellFormed(table) && Symbols(table) == syms && |syms| == 162
    requires syms[10] == 65 && syms[25] == 66 && syms[57] == 67 && syms[58] == 68 && syms[59] == 69
    requires syms[60] == 70 && syms[61] == 71 && syms[62] == 72 && syms[63] == 73 && syms[64] == 74
    ensures forall s | 1 <= s <= 10 :: AcSymbol(4, s) in CodeList(table)
  {
    forall s | 1 <= s <= 10 ensures AcSymbol(4, s) in CodeList(table) {
      if s == 1 {
        ListedHasCode(table, syms, 10, AcSymbol(4, s));
      } else if s == 2 {
        ListedHasCode(table, syms, 25, AcSymbol(4, s));
      } else if s == 3 {
        ListedHasCode(table, syms, 57, AcSymbol(4, s));
      } else if s == 4 {
        ListedHasCode(table, syms, 58, AcSymbol(4, s));
      } else if s == 5 {
        ListedHasCode(table, syms, 59, AcSymbol(4, s));
      } else if s == 6 {
        ListedHasCode(table, syms, 60, AcSymbol(4, s));
      } else if s == 7 {
        ListedHasCode(table, syms, 61, AcSymbol(4, s));
      } else if s == 8 {
        ListedHasCode(table, syms, 62, AcSymbol(4, s));
      } else if s == 9 {
        ListedHasCode(table, syms, 63, AcSymbol(4, s));
      } else {
        ListedHasCode(table, syms, 64, AcSymbol(4, s));
      }
    }
  }

  lemma LuminAcRun4Values()
    ensures |LuminAcSymbols| == 162
    ensures LuminAcSymbols[10] == 65 && LuminAcSymbols[25] == 66 && LuminAcSymbols[57] == 67 && LuminAcSymbols[58] == 68 && LuminAcSymbols[59] == 69
    ensures LuminAcSymbols[60] == 70 && LuminAcSymbols[61] == 71 && LuminAcSymbols[62] == 72 && LuminAcSymbols[63] == 73 && LuminAcSymbols[64] == 74
  {
  }

  lemma LuminAcRun5(table: seq<Byte>, syms: seq<Byte>)
    requires WellFormed(table) && Symbols(table) == syms && |syms| == 162
    requires syms[13] == 81 && syms[29] == 82 && syms[65] == 83 && syms[66] == 84 && syms[67] == 85
    requires syms[68] == 86 && syms[69] == 87 && syms[70] == 88 && syms[71] == 89 && syms[72] == 90
    ensures forall s | 1 <= s <= 10 :: AcSymbol(5, s) in CodeList(table)
  {
    forall s | 1 <= s <= 10 ensures AcSymbol(5, s) in CodeList(table) {
      if s == 1 {
        ListedHasCode(table, syms, 13, AcSymbol(5, s));
      } else if s == 2 {
        ListedHasCode(table, syms, 29, AcSymbol(5, s));
      } else if s == 3 {
        ListedHasCode(table, syms, 65, AcSymbol(5, s));
      } else if s == 4 {
        ListedHasCode(table, syms, 66, AcSymbol(5, s));
      } else if s == 5 {
        ListedHasCode(table, syms, 67, AcSymbol(5, s));
      } else if s == 6 {
        ListedHasCode(table, syms, 68, AcSymbol(5, s));
      } else if s == 7 {
        ListedHasCode(table, syms, 69, AcSymbol(5, s));
      } else if s == 8 {
        ListedHasCode(table, syms, 70, AcSymbol(5, s));
      } else if s == 9 {
        ListedHasCode(table, syms, 71, AcSymbol(5, s));
      } else {
        ListedHasCode(table, syms, 72, AcSymbol(5, s));
      }
    }
  }

  lemma LuminAcRun5Values()
    ensures |LuminAcSymbols| == 162
    ensures LuminAcSymbols[13] == 81 && LuminAcSymbols[29] == 82 && LuminAcSymbols[65] == 83 && LuminAcSymbols[66] == 84 && LuminAcSymbols[67] == 85
    ensures LuminAcSymbols[68] == 86 && LuminAcSymbols[69] == 87 && LuminAcSymbols[70] == 88 && LuminAcSymbols[71] == 89 && LuminAcSymbols[72] == 90
  {
  }

  lemma LuminAcRun6(table: seq<Byte>, syms: seq<Byte>)
    requires WellFormed(table) && Symbols(table) == syms && |syms| == 162
    requires syms[14] == 97 && syms[34] == 98 && syms[73] == 99 && syms[74] == 100 && syms[75] == 101
    requires syms[76] == 102 && syms[77] == 103 && syms[78] == 104 && syms[79] == 105 && syms[80] == 106
    ensures forall s | 1 <= s <= 10 :: AcSymbol(6, s) in CodeList(table)
  {
    forall s | 1 <= s <= 10 ensures AcSymbol(6, s) in CodeList(table) {
      if s == 1 {
        ListedHasCode(table, syms, 14, AcSymbol(6, s));
      } else if s == 2 {
        ListedHasCode(table, syms, 34, AcSymbol(6, s));
      } else if s == 3 {
        ListedHasCode(table, syms, 73, AcSymbol(6, s));
      } else if s == 4 {
        ListedHasCode(table, syms, 74, AcSymbol(6, s));
      } else if s == 5 {
        ListedHasCode(table, syms, 75, AcSymbol(6, s));
      } else if s == 6 {
        ListedHasCode(table, syms, 76, AcSymbol(6, s));
      } else if s == 7 {
        ListedHasCode(table, syms, 77, AcSymbol(6, s));
      } else if s == 8 {
        ListedHasCode(table, syms, 78, AcSymbol(6, s));
      } else if s == 9 {
        ListedHasCode(table, syms, 79, AcSymbol(6, s));
      } else {
        ListedHasCode(table, syms, 80, AcSymbol(6, s));
      }
    }
  }

  lemma LuminAcRun6Values()
    ensures |LuminAcSymbols| == 162
    ensures LuminAcSymbols[14] == 97 && LuminAcSymbols[34] == 98 && LuminAcSymbols[73] == 99 && LuminAcSymbols[74] == 100 && LuminAcSymbols[75] == 101
    ensures LuminAcSymbols[76] == 102 && LuminAcSymbols[77] == 103 && LuminAcSymbols[78] == 104 && LuminAcSymbols[79] == 105 && LuminAcSymbols[80] == 106
  {
  }

  lemma LuminAcRun7(table: seq<Byte>, syms: seq<Byte>)
    requires WellFormed(table) && Symbols(table) == syms && |syms| == 162
    requires syms[17] == 113 && syms[35] == 114 && syms[81] == 115 && syms[82] == 116 && syms[83] == 117
    requires syms[84] == 118 && syms[85] == 119 && syms[86] == 120 && syms[87] == 121 && syms[88] == 122
    ensures forall s | 1 <= s <= 10 :: AcSymbol(7, s) in CodeList(table)
  {
    forall s | 1 <= s <= 10 ensures AcSymbol(7, s) in CodeList(table) {
      if s == 1 {
        ListedHasCode(table, syms, 17, AcSymbol(7, s));
      } else if s == 2 {
        ListedHasCode(table, syms, 35, AcSymbol(7, s));
      } else if s == 3 {
        ListedHasCode(table, syms, 81, AcSymbol(7, s));
      } else if s == 4 {
        ListedHasCode(table, syms, 82, AcSymbol(7, s));
      } else if s == 5 {
        ListedHasCode(table, syms, 83, AcSymbol(7, s));
      } else if s == 6 {
        ListedHasCode(table, syms, 84, AcSymbol(7, s));
      } else if s == 7 {
        ListedHasCode(table, syms, 85, AcSymbol(7, s));
      } else if s == 8 {
        ListedHasCode(table, syms, 86, AcSymbol(7, s));
      } else if s == 9 {
        ListedHasCode(table, syms, 87, AcSymbol(7, s));
      } else {
        ListedHasCode(table, syms, 88, AcSymbol(7, s));
      }
    }
  }

  lemma LuminAcRun7Values()
    ensures |LuminAcSymbols| == 162
    ensures LuminAcSymbols[17] == 113 && LuminAcSymbols[35] == 114 && LuminAcSymbols[81] == 115 && LuminAcSymbols[82] == 116 && LuminAcSymbols[83] == 117
    ensures LuminAcSymbols[84] == 118 && LuminAcSymbols[85] == 119 && LuminAcSymbols[86] == 120 && LuminAcSymbols[87] == 121 && LuminAcSymbols[88] == 122
  {
  }

  lemma LuminAcRun8(table: seq<Byte>, syms: seq<Byte>)
    requires WellFormed(table) && Symbols(table) == syms && |syms| == 162
    requires syms[20] == 129 && syms[36] == 130 && syms[89] == 131 && syms[90] == 132 && syms[91] == 133
    requires syms[92] == 134 && syms[93] == 135 && syms[94] == 136 && syms[95] == 137 && syms[96] == 138
    ensures forall s | 1 <= s <= 10 :: AcSymbol(8, s) in CodeList(table)
  {
    forall s | 1 <= s <= 10 ensures AcSymbol(8, s) in CodeList(table) {
      if s == 1 {
        ListedHasCode(table, syms, 20, AcSymbol(8, s));
      } else if s == 2 {
        ListedHasCode(table, syms, 36, AcSymbol(8, s));
      } else if s == 3 {
        ListedHasCode(table, syms, 89, AcSymbol(8, s));
      } else if s == 4 {
        ListedHasCode(table, syms, 90, AcSymbol(8, s));
      } else if s == 5 {
        ListedHasCode(table, syms, 91, AcSymbol(8, s));
      } else if s == 6 {
        ListedHasCode(table, syms, 92, AcSymbol(8, s));
      } else if s == 7 {
        ListedHasCode(table, syms, 93, AcSymbol(8, s));
      } else if s == 8 {
        ListedHasCode(table, syms, 94, AcSymbol(8, s));
      } else if s == 9 {
        ListedHasCode(table, syms, 95, AcSymbol(8, s));
      } else {
        ListedHasCode(table, syms, 96, AcSymbol(8, s));
      }
    }
  }

  lemma LuminAcRun8Values()
    ensures |LuminAcSymbols| == 162
    ensures LuminAcSymbols[20] == 129 && LuminAcSymbols[36] == 130 && LuminAcSymbols[89] == 131 && LuminAcSymbols[90] == 132 && LuminAcSymbols[91] == 133
    ensures LuminAcSymbols[92] == 134 && LuminAcSymbols[93] == 135 && LuminAcSymbols[94] == 136 && LuminAcSymbols[95] == 137 && LuminAcSymbols[96] == 138
  {
  }

  lemma LuminAcRun9(table: seq<Byte>, syms: seq<Byte>)
    requires WellFormed(table) && Symbols(table) == syms && |syms| == 162
    requires syms[21] == 145 && syms[97] == 146 && syms[98] == 147 && syms[99] == 148 && syms[100] == 149
    requires syms[101] == 150 && syms[102] == 151 && syms[103] == 152 && syms[104] == 153 && syms[105] == 154
    ensures forall s | 1 <= s <= 10 :: AcSymbol(9, s) in CodeList(table)
  {
    forall s | 1 <= s <= 10 ensures AcSymbol(9, s) in CodeList(table) {
      if s == 1 {
        ListedHasCode(table, syms, 21, AcSymbol(9, s));
      } else if s == 2 {
        ListedHasCode(table, syms, 97, AcSymbol(9, s));
      } else if s == 3 {
        ListedHasCode(table, syms, 98, AcSymbol(9, s));
      } else if s == 4 {
        ListedHasCode(table, syms, 99, AcSymbol(9, s));
      } else if s == 5 {
        ListedHasCode(table, syms, 100, AcSymbol(9, s));
      } else if s == 6 {
        ListedHasCode(table, syms, 101, AcSymbol(9, s));
      } else if s == 7 {
        ListedHasCode(table, syms, 102, AcSymbol(9, s));
      } else if s == 8 {
        ListedHasCode(table, syms, 103, AcSymbol(9, s));
      } else if s == 9 {
        ListedHasCode(table, syms, 104, AcSymbol(9, s));
      } else {
        ListedHasCode(table, syms, 105, AcSymbol(9, s));
      }
    }
  }

  lemma LuminAcRun9Values()
    ensures |LuminAcSymbols| == 162
    ensures LuminAcSymbols[21] == 145 && LuminAcSymbols[97] == 146 && LuminAcSymbols[98] == 147 && LuminAcSymbols[99] == 148 && LuminAcSymbols[100] == 149
    ensures LuminAcSymbols[101] == 150 && LuminAcSymbols[102] == 151 && LuminAcSymbols[103] == 152 && LuminAcSymbols[104] == 153 && LuminAcSymbols[105] == 154
  {
  }

  lemma LuminAcRun10(table: seq<Byte>, syms: seq<Byte>)
    requires WellFormed(table) && Symbols(table) == syms && |syms| == 162
    requires syms[22] == 161 && syms[106] == 162 && syms[107] == 163 && syms[108] == 164 && syms[109] == 165
    requires syms[110] == 166 && syms[111] == 167 && syms[112] == 168 && syms[113] == 169 && syms[114] == 170
    ensures forall s | 1 <= s <= 10 :: AcSymbol(10, s) in CodeList(table)
  {
    forall s | 1 <= s <= 10 ensures AcSymbol(10, s) in CodeList(table) {
      if s == 1 {
        ListedHasCode(table, syms, 22, AcSymbol(10, s));
      } else if s == 2 {
        ListedHasCode(table, syms, 106, AcSymbol(10, s));
      } else if s == 3 {
        ListedHasCode(table, syms, 107, AcSymbol(10, s));
      } else if s == 4 {
        ListedHasCode(table, syms, 108, AcSymbol(10, s));
      } else if s == 5 {
        ListedHasCode(table, syms, 109, AcSymbol(10, s));
      } else if s == 6 {
        ListedHasCode(table, syms, 110, AcSymbol(10, s));
      } else if s == 7 {
        ListedHasCode(table, syms, 111, AcSymbol(10, s));
      } else if s == 8 {
        ListedHasCode(table, syms, 112, AcSymbol(10, s));
      } else if s == 9 {
        ListedHasCode(table, syms, 113, AcSymbol(10, s));
      } else {
        ListedHasCode(table, syms, 114, AcSymbol(10, s));
      }
    }
  }

  lemma LuminAcRun10Values()
    ensures |LuminAcSymbols| == 162
    ensures LuminAcSymbols[22] == 161 && LuminAcSymbols[106] == 162 && LuminAcSymbols[107] == 163 && LuminAcSymbols[108] == 164 && LuminAcSymbols[109] == 165
    ensures LuminAcSymbols[110] == 166 && LuminAcSymbols[111] == 167 && LuminAcSymbols[112] == 168 && LuminAcSymbols[113] == 169 && LuminAcSymbols[114] == 170
  {
  }

  lemma LuminAcRun11(table: seq<Byte>, syms: seq<Byte>)
    requires WellFormed(table) && Symbols(table) == syms && |syms| == 162
    requires syms[26] == 177 && syms[115] == 178 && syms[116] == 179 && syms[117] == 180 && syms[118] == 181
    requires syms[119] == 182 && syms[120] == 183 && syms[121] == 184 && syms[122] == 185 && syms[123] == 186
    ensures forall s | 1 <= s <= 10 :: AcSymbol(11, s) in CodeList(table)
  {
    forall s | 1 <= s <= 10 ensures AcSymbol(11, s) in CodeList(table) {
      if s == 1 {
        ListedHasCode(table, syms, 26, AcSymbol(11, s));
      } else if s == 2 {
        ListedHasCode(table, syms, 115, AcSymbol(11, s));
      } else if s == 3 {
        ListedHasCode(table, syms, 116, AcSymbol(11, s));
      } else if s == 4 {
        ListedHasCode(table, syms, 117, AcSymbol(11, s));
      } else if s == 5 {
        ListedHasCode(table, syms, 118, AcSymbol(11, s));
      } else if s == 6 {
        ListedHasCode(table, syms, 119, AcSymbol(11, s));
      } else if s == 7 {
        ListedHasCode(table, syms, 120, AcSymbol(11, s));
      } else if s == 8 {
        ListedHasCode(table, syms, 121, AcSymbol(11, s));
      } else if s == 9 {
        ListedHasCode(table, syms, 122, AcSymbol(11, s));
      } else {
        ListedHasCode(table, syms, 123, AcSymbol(11, s));
      }
    }
  }

  lemma LuminAcRun11Values()
    ensures |LuminAcSymbols| == 162
    ensures LuminAcSymbols[26] == 177 && LuminAcSymbols[115] == 178 && LuminAcSymbols[116] == 179 && LuminAcSymbols[117] == 180 && LuminAcSymbols[118] == 181
    ensures LuminAcSymbols[119] == 182 && LuminAcSymbols[120] == 183 && LuminAcSymbols[121] == 184 && LuminAcSymbols[122] == 185 && LuminAcSymbols[123] == 186
  {
  }

  lemma LuminAcRun12(table: seq<Byte>, syms: seq<Byte>)
    requires WellFormed(table) && Symbols(table) == syms && |syms| == 162
    requires syms[27] == 193 && syms[124] == 194 && syms[125] == 195 && syms[126] == 196 && syms[127] == 197
    requires syms[128] == 198 && syms[129] == 199 && syms[130] == 200 && syms[131] == 201 && syms[132] == 202
    ensures forall s | 1 <= s <= 10 :: AcSymbol(12, s) in CodeList(table)
  {
    forall s | 1 <= s <= 10 ensures AcSymbol(12, s) in CodeList(table) {
      if s == 1 {
        ListedHasCode(table, syms, 27, AcSymbol(12, s));
      } else if s == 2 {
        ListedHasCode(table, syms, 124, AcSymbol(12, s));
      } else if s == 3 {
        ListedHasCode(table, syms, 125, AcSymbol(12, s));
      } else if s == 4 {
        ListedHasCode(table, syms, 126, AcSymbol(12, s));
      } else if s == 5 {
        ListedHasCode(table, syms, 127, AcSymbol(12, s));
      } else if s == 6 {
        ListedHasCode(table, syms, 128, AcSymbol(12, s));
      } else if s == 7 {
        ListedHasCode(table, syms, 129, AcSymbol(12, s));
      } else if s == 8 {
        ListedHasCode(table, syms, 130, AcSymbol(12, s));
      } else if s == 9 {
        ListedHasCode(table, syms, 131, AcSymbol(12, s));
      } else {
        ListedHasCode(table, syms, 132, AcSymbol(12, s));
      }
    }
  }

  lemma LuminAcRun12Values()
    ensures |LuminAcSymbols| == 162
    ensures LuminAcSymbols[27] == 193 && LuminAcSymbols[124] == 194 && LuminAcSymbols[125] == 195 && LuminAcSymbols[126] == 196 && LuminAcSymbols[127] == 197
    ensures LuminAcSymbols[128] == 198 && LuminAcSymbols[129] == 199 && LuminAcSymbols[130] == 200 && LuminAcSymbols[131] == 201 && LuminAcSymbols[132] == 202
  {
  }

  lemma LuminAcRun13(table: seq<Byte>, syms: seq<Byte>)
    requires WellFormed(table) && Symbols(table) == syms && |syms| == 162
    requires syms[30] == 209 && syms[133] == 210 && syms[134] == 211 && syms[135] == 212 && syms[136] == 213
    requires syms[137] == 214 && syms[138] == 215 && syms[139] == 216 && syms[140] == 217 && syms[141] == 218
    ensures forall s | 1 <= s <= 10 :: AcSymbol(13, s) in CodeList(table)
  {
    forall s | 1 <= s <= 10 ensures AcSymbol(13, s) in CodeList(table) {
      if s == 1 {
        ListedHasCode(table, syms, 30, AcSymbol(13, s));
      } else if s == 2 {
        ListedHasCode(table, syms, 133, AcSymbol(13, s));
      } else if s == 3 {
        ListedHasCode(table, syms, 134, AcSymbol(13, s));
      } else if s == 4 {
        ListedHasCode(table, syms, 135, AcSymbol(13, s));
      } else if s == 5 {
        ListedHasCode(table, syms, 136, AcSymbol(13, s));
      } else if s == 6 {
        ListedHasCode(table, syms, 137, AcSymbol(13, s));
      } else if s == 7 {
        ListedHasCode(table, syms, 138, AcSymbol(13, s));
      } else if s == 8 {
        ListedHasCode(table, syms, 139, AcSymbol(13, s));
      } else if s == 9 {
        ListedHasCode(table, syms, 140, AcSymbol(13, s));
      } else {
        ListedHasCode(table, syms, 141, AcSymbol(13, s));
      }
    }
  }

  lemma LuminAcRun13Values()
    ensures |LuminAcSymbols| == 162
    ensures LuminAcSymbols[30] == 209 && LuminAcSymbols[133] == 210 && LuminAcSymbols[134] == 211 && LuminAcSymbols[135] == 212 && LuminAcSymbols[136] == 213
    ensures LuminAcSymbols[137] == 214 && LuminAcSymbols[138] == 215 && LuminAcSymbols[139] == 216 && LuminAcSymbols[140] == 217 && LuminAcSymbols[141] == 218
  {
  }

  lemma LuminAcRun14(table: seq<Byte>, syms: seq<Byte>)
    requires WellFormed(table) && Symbols(table) == syms && |syms| == 162
    requires syms[142] == 225 && syms[143] == 226 && syms[144] == 227 && syms[145] == 228 && syms[146] == 229
    requires syms[147] == 230 && syms[148] == 231 && syms[149] == 232 && syms[150] == 233 && syms[151] == 234
    ensures forall s | 1 <= s <= 10 :: AcSymbol(14, s) in CodeList(table)
  {
    forall s | 1 <= s <= 10 ensures AcSymbol(14, s) in CodeList(table) {
      if s == 1 {
        ListedHasCode(table, syms, 142, AcSymbol(14, s));
      } else if s == 2 {
        ListedHasCode(table, syms, 143, AcSymbol(14, s));
      } else if s == 3 {
        ListedHasCode(table, syms, 144, AcSymbol(14, s));
      } else if s == 4 {
        ListedHasCode(table, syms, 145, AcSymbol(14, s));
      } else if s == 5 {
        ListedHasCode(table, syms, 146, AcSymbol(14, s));
      } else if s == 6 {
        ListedHasCode(table, syms, 147, AcSymbol(14, s));
      } else if s == 7 {
        ListedHasCode(table, syms, 148, AcSymbol(14, s));
      } else if s == 8 {
        ListedHasCode(table, syms, 149, AcSymbol(14, s));
      } else if s == 9 {
        ListedHasCode(table, syms, 150, AcSymbol(14, s));
      } else {
        ListedHasCode(table, syms, 151, AcSymbol(14, s));
      }
    }
  }

  lemma LuminAcRun14Values()
    ensures |LuminAcSymbols| == 162
    ensures LuminAcSymbols[142] == 225 && LuminAcSymbols[143] == 226 && LuminAcSymbols[144] == 227 && LuminAcSymbols[145] == 228 && LuminAcSymbols[146] == 229
    ensures LuminAcSymbols[147] == 230 && LuminAcSymbols[148] == 231 && LuminAcSymbols[149] == 232 && LuminAcSymbols[150] == 233 && LuminAcSymbols[151] == 234
  {
  }

  lemma LuminAcRun15(table: seq<Byte>, syms: seq<Byte>)
    requires WellFormed(table) && Symbols(table) == syms && |syms| == 162
    requires syms[152] == 241 && syms[153] == 242 && syms[154] == 243 && syms[155] == 244 && syms[156] == 245
    requires syms[157] == 246 && syms[158] == 247 && syms[159] == 248 && syms[160] == 249 && syms[161] == 250
    ensures forall s | 1 <= s <= 10 :: AcSymbol(15, s) in CodeList(table)
  {
    forall s | 1 <= s <= 10 ensures AcSymbol(15, s) in CodeList(table) {
      if s == 1 {
        ListedHasCode(table, syms, 152, AcSymbol(15, s));
      } else if s == 2 {
        ListedHasCode(table, syms, 153, AcSymbol(15, s));
      } else if s == 3 {
        ListedHasCode(table, syms, 154, AcSymbol(15, s));
      } else if s == 4 {
        ListedHasCode(table, syms, 155, AcSymbol(15, s));
      } else if s == 5 {
        ListedHasCode(table, syms, 156, AcSymbol(15, s));
      } else if s == 6 {
        ListedHasCode(table, syms, 157, AcSymbol(15, s));
      } else if s == 7 {
        ListedHasCode(table, syms, 158, AcSymbol(15, s));
      } else if s == 8 {
        ListedHasCode(table, syms, 159, AcSymbol(15, s));
      } else if s == 9 {
        ListedHasCode(table, syms, 160, AcSymbol(15, s));
      } else {
        ListedHasCode(table, syms, 161, AcSymbol(15, s));
      }
    }
  }

  lemma LuminAcRun15Values()
    ensures |LuminAcSymbols| == 162
    ensures LuminAcSymbols[152] == 241 && LuminAcSymbols[153] == 242 && LuminAcSymbols[154] == 243 && LuminAcSymbols[155] == 244 && LuminAcSymbols[156] == 245
    ensures LuminAcSymbols[157] == 246 && LuminAcSymbols[158] == 247 && LuminAcSymbols[159] == 248 && LuminAcSymbols[160] == 249 && LuminAcSymbols[161] == 250
  {
  }

  lemma LuminAcCoveredBy(table: seq<Byte>)
    requires WellFormed(table) && Symbols(table) == LuminAcSymbols
    ensures AcCovered(CodeList(table))
  {
    var syms := LuminAcSymbols;
    LuminAcSymbolsLength();
    assert syms[3] == 0x00 && syms[31] == 0xF0;
    ListedHasCode(table, syms, 3, 0x00);
    ListedHasCode(table, syms, 31, 0xF0);
    LuminAcRun0Values();
    LuminAcRun0(table, syms);
    LuminAcRun1Values();
    LuminAcRun1(table, syms);
    LuminAcRun2Values();
    LuminAcRun2(table, syms);
    LuminAcRun3Values();
    LuminAcRun3(table, syms);
    LuminAcRun4Values();
    LuminAcRun4(table, syms);
    LuminAcRun5Values();
    LuminAcRun5(table, syms);
    LuminAcRun6Values();
    LuminAcRun6(table, syms);
    LuminAcRun7Values();
    LuminAcRun7(table, syms);
    LuminAcRun8Values();
    LuminAcRun8(table, syms);
    LuminAcRun9Values();
    LuminAcRun9(table, syms);
    LuminAcRun10Values();
    LuminAcRun10(table, syms);
    LuminAcRun11Values();
    LuminAcRun11(table, syms);
    LuminAcRun12Values();
    LuminAcRun12(table, syms);
    LuminAcRun13Values();
    LuminAcRun13(table, syms);
    LuminAcRun14Values();
    LuminAcRun14(table, syms);
    LuminAcRun15Values();
    LuminAcRun15(table, syms);
    forall r, s | 0 <= r < 16 && 1 <= s <= 10 ensures AcSymbol(r, s) in CodeList(table) {
      assert r == 0 || r == 1 || r == 2 || r == 3 || r == 4 || r == 5 || r == 6 || r == 7 || r == 8 || r == 9 || r == 10 || r == 11 || r == 12 || r == 13 || r == 14 || r == 15;
    }
  }

  lemma LuminAcCovered()
    ensures WellFormed(LuminAc) && AcCovered(CodeList(LuminAc))
  {
    LuminAcFits();
    LuminAcCoveredBy(LuminAc);
  }


  lemma ChromAcRun0(table: seq<Byte>, syms: seq<Byte>)
    requires WellFormed(table) && Symbols(table) == syms && |syms| == 162
    requires syms[1] == 1 && syms[2] == 2 && syms[3] == 3 && syms[5] == 4 && syms[6] == 5
    requires syms[9] == 6 && syms[13] == 7 && syms[20] == 8 && syms[27] == 9 && syms[36] == 10
    ensures forall s | 1 <= s <= 10 :: AcSymbol(0, s) in CodeList(table)
  {
    forall s | 1 <= s <= 10 ensures AcSymbol(0, s) in CodeList(table) {
      if s == 1 {
        ListedHasCode(table, syms, 1, AcSymbol(0, s));
      } else if s == 2 {
        ListedHasCode(table, syms, 2, AcSymbol(0, s));
      } else if s == 3 {
        ListedHasCode(table, syms, 3, AcSymbol(0, s));
      } else if s == 4 {
        ListedHasCode(table, syms, 5, AcSymbol(0, s));
      } else if s == 5 {
        ListedHasCode(table, syms, 6, AcSymbol(0, s));
      } else if s == 6 {
        ListedHasCode(table, syms, 9, AcSymbol(0, s));
      } else if s == 7 {
        ListedHasCode(table, syms, 13, AcSymbol(0, s));
      } else if s == 8 {
        ListedHasCode(table, syms, 20, AcSymbol(0, s));
      } else if s == 9 {
        ListedHasCode(table, syms, 27, AcSymbol(0, s));
      } else {
        ListedHasCode(table, syms, 36, AcSymbol(0, s));
      }
    }
  }

  lemma ChromAcRun0Values()
    ensures |ChromAcSymbols| == 162
    ensures ChromAcSymbols[1] == 1 && ChromAcSymbols[2] == 2 && ChromAcSymbols[3] == 3 && ChromAcSymbols[5] == 4 && ChromAcSymbols[6] == 5
    ensures ChromAcSymbols[9] == 6 && ChromAcSymbols[13] == 7 && ChromAcSymbols[20] == 8 && ChromAcSymbols[27] == 9 && ChromAcSymbols[36] == 10
  {
  }

  lemma ChromAcRun1(table: seq<Byte>, syms: seq<Byte>)
    requires WellFormed(table) && Symbols(table) == syms && |syms| == 162
    requires syms[4] == 17 && syms[10] == 18 && syms[16] == 19 && syms[21] == 20 && syms[32] == 21
    requires syms[37] == 22 && syms[43] == 23 && syms[44] == 24 && syms[45] == 25 && syms[46] == 26
    ensures forall s | 1 <= s <= 10 :: AcSymbol(1, s) in CodeList(table)
  {
    forall s | 1 <= s <= 10 ensures AcSymbol(1, s) in CodeList(table) {
      if s == 1 {
        ListedHasCode(table, syms, 4, AcSymbol(1, s));
      } else if s == 2 {
        ListedHasCode(table, syms, 10, AcSymbol(1, s));
      } else if s == 3 {
        ListedHasCode(table, syms, 16, AcSymbol(1, s));
      } else if s == 4 {
        ListedHasCode(table, syms, 21, AcSymbol(1, s));
      } else if s == 5 {
        ListedHasCode(table, syms, 32, AcSymbol(1, s));
      } else if s == 6 {
        ListedHasCode(table, syms, 37, AcSymbol(1, s));
      } else if s == 7 {
        ListedHasCode(table, syms, 43, AcSymbol(1, s));
      } else if s == 8 {
        ListedHasCode(table, syms, 44, AcSymbol(1, s));
      } else if s == 9 {
        ListedHasCode(table, syms, 45, AcSymbol(1, s));
      } else {
        ListedHasCode(table, syms, 46, AcSymbol(1, s));
      }
    }
  }

  lemma ChromAcRun1Values()
    ensures |ChromAcSymbols| == 162
    ensures ChromAcSymbols[4] == 17 && ChromAcSymbols[10] == 18 && ChromAcSymbols[16] == 19 && ChromAcSymbols[21] == 20 && ChromAcSymbols[32] == 21
    ensures ChromAcSymbols[37] == 22 && ChromAcSymbols[43] == 23 && ChromAcSymbols[44] == 24 && ChromAcSymbols[45] == 25 && ChromAcSymbols[46] == 26
  {
  }

  lemma ChromAcRun2(table: seq<Byte>, syms: seq<Byte>)
    requires WellFormed(table) && Symbols(table) == syms && |syms| == 162
    requires syms[7] == 33 && syms[17] == 34 && syms[28] == 35 && syms[38] == 36 && syms[41] == 37
    requires syms[47] == 38 && syms[48] == 39 && syms[49] == 40 && syms[50] == 41 && syms[51] == 42
    ensures forall s | 1 <= s <= 10 :: AcSymbol(2, s) in CodeList(table)
  {
    forall s | 1 <= s <= 10 ensures AcSymbol(2, s) in CodeList(table) {
      if s == 1 {
        ListedHasCode(table, syms, 7, AcSymbol(2, s));
      } else if s == 2 {
        ListedHasCode(table, syms, 17, AcSymbol(2, s));
      } else if s == 3 {
        ListedHasCode(table, syms, 28, AcSymbol(2, s));
      } else if s == 4 {
        ListedHasCode(table, syms, 38, AcSymbol(2, s));
      } else if s == 5 {
        ListedHasCode(table, syms, 41, AcSymbol(2, s));
      } else if s == 6 {
        ListedHasCode(table, syms, 47, AcSymbol(2, s));
      } else if s == 7 {
        ListedHasCode(table, syms, 48, AcSymbol(2, s));
      } else if s == 8 {
        ListedHasCode(table, syms, 49, AcSymbol(2, s));
      } else if s == 9 {
        ListedHasCode(table, syms, 50, AcSymbol(2, s));
      } else {
        ListedHasCode(table, syms, 51, AcSymbol(2, s));
      }
    }
  }

  lemma ChromAcRun2Values()
    ensures |ChromAcSymbols| == 162
    ensures ChromAcSymbols[7] == 33 && ChromAcSymbols[17] == 34 && ChromAcSymbols[28] == 35 && ChromAcSymbols[38] == 36 && ChromAcSymbols[41] == 37
    ensures ChromAcSymbols[47] == 38 && ChromAcSymbols[48] == 39 && ChromAcSymbols[49] == 40 && ChromAcSymbols[50] == 41 && ChromAcSymbols[51] == 42
  {
  }

  lemma ChromAcRun3(table: seq<Byte>, syms: seq<Byte>)
    requires WellFormed(table) && Symbols(table) == syms && |syms| == 162
    requires syms[8] == 49 && syms[18] == 50 && syms[29] == 51 && syms[39] == 52 && syms[52] == 53
    requires syms[53] == 54 && syms[54] == 55 && syms[55] == 56 && syms[56] == 57 && syms[57] == 58
    ensures forall s | 1 <= s <= 10 :: AcSymbol(3, s) in CodeList(table)
  {
    forall s | 1 <= s <= 10 ensures AcSymbol(3, s) in CodeList(table) {
      if s == 1 {
        ListedHasCode(table, syms, 8, AcSymbol(3, s));
      } else if s == 2 {
        ListedHasCode(table, syms, 18, AcSymbol(3, s));
      } else if s == 3 {
        ListedHasCode(table, syms, 29, AcSymbol(3, s));
      } else if s == 4 {
        ListedHasCode(table, syms, 39, AcSymbol(3, s));
      } else if s == 5 {
        ListedHasCode(table, syms, 52, AcSymbol(3, s));
      } else if s == 6 {
        ListedHasCode(table, syms, 53, AcSymbol(3, s));
      } else if s == 7 {
        ListedHasCode(table, syms, 54, AcSymbol(3, s));
      } else if s == 8 {
        ListedHasCode(table, syms, 55, AcSymbol(3, s));
      } else if s == 9 {
        ListedHasCode(table, syms, 56, AcSymbol(3, s));
      } else {
        ListedHasCode(table, syms, 57, AcSymbol(3, s));
      }
    }
  }

  lemma ChromAcRun3Values()
    ensures |ChromAcSymbols| == 162
    ensures ChromAcSymbols[8] == 49 && ChromAcSymbols[18] == 50 && ChromAcSymbols[29] == 51 && ChromAcSymbols[39] == 52 && ChromAcSymbols[52] == 53
    ensures ChromAcSymbols[53] == 54 && ChromAcSymbols[54] == 55 && ChromAcSymbols[55] == 56 && ChromAcSymbols[56] == 57 && ChromAcSymbols[57] == 58
  {
  }

  lemma ChromAcRun4(table: seq<Byte>, syms: seq<Byte>)
    requires WellFormed(table) && Symbols(table) == syms && |syms| == 162
    requires syms[11] == 65 && syms[22] == 66 && syms[58] == 67 && syms[59] == 68 && syms[60] == 69
    requires syms[61] == 70 && syms[62] == 71 && syms[63] == 72 && syms[64] == 73 && syms[65] == 74
    ensures forall s | 1 <= s <= 10 :: AcSymbol(4, s) in CodeList(table)
  {
    forall s | 1 <= s <= 10 ensures AcSymbol(4, s) in CodeList(table) {
      if s == 1 {
        ListedHasCode(table, syms, 11, AcSymbol(4, s));
      } else if s == 2 {
        ListedHasCode(table, syms, 22, AcSymbol(4, s));
      } else if s == 3 {
        ListedHasCode(table, syms, 58, AcSymbol(4, s));
      } else if s == 4 {
        ListedHasCode(table, syms, 59, AcSymbol(4, s));
      } else if s == 5 {
        ListedHasCode(table, syms, 60, AcSymbol(4, s));
      } else if s == 6 {
        ListedHasCode(table, syms, 61, AcSymbol(4, s));
      } else if s == 7 {
        ListedHasCode(table, syms, 62, AcSymbol(4, s));
      } else if s == 8 {
        ListedHasCode(table, syms, 63, AcSymbol(4, s));
      } else if s == 9 {
        ListedHasCode(table, syms, 64, AcSymbol(4, s));
      } else {
        ListedHasCode(table, syms, 65, AcSymbol(4, s));
      }
    }
  }

  lemma ChromAcRun4Values()
    ensures |ChromAcSymbols| == 162
    ensures ChromAcSymbols[11] == 65 && ChromAcSymbols[22] == 66 && ChromAcSymbols[58] == 67 && ChromAcSymbols[59] == 68 && ChromAcSymbols[60] == 69
    ensures ChromAcSymbols[61] == 70 && ChromAcSymbols[62] == 71 && ChromAcSymbols[63] == 72 && ChromAcSymbols[64] == 73 && ChromAcSymbols[65] == 74
  {
  }

  lemma ChromAcRun5(table: seq<Byte>, syms: seq<Byte>)
    requires WellFormed(table) && Symbols(table) == syms && |syms| == 162
    requires syms[12] == 81 && syms[30] == 82 && syms[66] == 83 && syms[67] == 84 && syms[68] == 85
    requires syms[69] == 86 && syms[70] == 87 && syms[71] == 88 && syms[72] == 89 && syms[73] == 90
    ensures forall s | 1 <= s <= 10 :: AcSymbol(5, s) in CodeList(table)
  {
    forall s | 1 <= s <= 10 ensures AcSymbol(5, s) in CodeList(table) {
      if s == 1 {
        ListedHasCode(table, syms, 12, AcSymbol(5, s));
      } else if s == 2 {
        ListedHasCode(table, syms, 30, AcSymbol(5, s));
      } else if s == 3 {
        ListedHasCode(table, syms, 66, AcSymbol(5, s));
      } else if s == 4 {
        ListedHasCode(table, syms, 67, AcSymbol(5, s));
      } else if s == 5 {
        ListedHasCode(table, syms, 68, AcSymbol(5, s));
      } else if s == 6 {
        ListedHasCode(table, syms, 69, AcSymbol(5, s));
      } else if s == 7 {
        ListedHasCode(table, syms, 70, AcSymbol(5, s));
      } else if s == 8 {
        ListedHasCode(table, syms, 71, AcSymbol(5, s));
      } else if s == 9 {
        ListedHasCode(table, syms, 72, AcSymbol(5, s));
      } else {
        ListedHasCode(table, syms, 73, AcSymbol(5, s));
      }
    }
  }

  lemma ChromAcRun5Values()
    ensures |ChromAcSymbols| == 162
    ensures ChromAcSymbols[12] == 81 && ChromAcSymbols[30] == 82 && ChromAcSymbols[66] == 83 && ChromAcSymbols[67] == 84 && ChromAcSymbols[68] == 85
    ensures ChromAcSymbols[69] == 86 && ChromAcSymbols[70] == 87 && ChromAcSymbols[71] == 88 && ChromAcSymbols[72] == 89 && ChromAcSymbols[73] == 90
  {
  }

  lemma ChromAcRun6(table: seq<Byte>, syms: seq<Byte>)
    requires WellFormed(table) && Symbols(table) == syms && |syms| == 162
    requires syms[14] == 97 && syms[33] == 98 && syms[74] == 99 && syms[75] == 100 && syms[76] == 101
    requires syms[77] == 102 && syms[78] == 103 && syms[79] == 104 && syms[80] == 105 && syms[81] == 106
    ensures forall s | 1 <= s <= 10 :: AcSymbol(6, s) in CodeList(table)
  {
    forall s | 1 <= s <= 10 ensures AcSymbol(6, s) in CodeList(table) {
      if s == 1 {
        ListedHasCode(table, syms, 14, AcSymbol(6, s));
      } else if s == 2 {
        ListedHasCode(table, syms, 33, AcSymbol(6, s));
      } else if s == 3 {
        ListedHasCode(table, syms, 74, AcSymbol(6, s));
      } else if s == 4 {
        ListedHasCode(table, syms, 75, AcSymbol(6, s));
      } else if s == 5 {
        ListedHasCode(table, syms, 76, AcSymbol(6, s));
      } else if s == 6 {
        ListedHasCode(table, syms, 77, AcSymbol(6, s));
      } else if s == 7 {
        ListedHasCode(table, syms, 78, AcSymbol(6, s));
      } else if s == 8 {
        ListedHasCode(table, syms, 79, AcSymbol(6, s));
      } else if s == 9 {
        ListedHasCode(table, syms, 80, AcSymbol(6, s));
      } else {
        ListedHasCode(table, syms, 81, AcSymbol(6, s));
      }
    }
  }

  lemma ChromAcRun6Values()
    ensures |ChromAcSymbols| == 162
    ensures ChromAcSymbols[14] == 97 && ChromAcSymbols[33] == 98 && ChromAcSymbols[74] == 99 && ChromAcSymbols[75] == 100 && ChromAcSymbols[76] == 101
    ensures ChromAcSymbols[77] == 102 && ChromAcSymbols[78] == 103 && ChromAcSymbols[79] == 104 && ChromAcSymbols[80] == 105 && ChromAcSymbols[81] == 106
  {
  }

  lemma ChromAcRun7(table: seq<Byte>, syms: seq<Byte>)
    requires WellFormed(table) && Symbols(table) == syms && |syms| == 162
    requires syms[15] == 113 && syms[34] == 114 && syms[82] == 115 && syms[83] == 116 && syms[84] == 117
    requires syms[85] == 118 && syms[86] == 119 && syms[87] == 120 && syms[88] == 121 && syms[89] == 122
    ensures forall s | 1 <= s <= 10 :: AcSymbol(7, s) in CodeList(table)
  {
    forall s | 1 <= s <= 10 ensures AcSymbol(7, s) in CodeList(table) {
      if s == 1 {
        ListedHasCode(table, syms, 15, AcSymbol(7, s));
      } else if s == 2 {
        ListedHasCode(table, syms, 34, AcSymbol(7, s));
      } else if s == 3 {
        ListedHasCode(table, syms, 82, AcSymbol(7, s));
      } else if s == 4 {
        ListedHasCode(table, syms, 83, AcSymbol(7, s));
      } else if s == 5 {
        ListedHasCode(table, syms, 84, AcSymbol(7, s));
      } else if s == 6 {
        ListedHasCode(table, syms, 85, AcSymbol(7, s));
      } else if s == 7 {
        ListedHasCode(table, syms, 86, AcSymbol(7, s));
      } else if s == 8 {
        ListedHasCode(table, syms, 87, AcSymbol(7, s));
      } else if s == 9 {
        ListedHasCode(table, syms, 88, AcSymbol(7, s));
      } else {
        ListedHasCode(table, syms, 89, AcSymbol(7, s));
      }
    }
  }

  lemma ChromAcRun7Values()
    ensures |ChromAcSymbols| == 162
    ensures ChromAcSymbols[15] == 113 && ChromAcSymbols[34] == 114 && ChromAcSymbols[82] == 115 && ChromAcSymbols[83] == 116 && ChromAcSymbols[84] == 117
    ensures ChromAcSymbols[85] == 118 && ChromAcSymbols[86] == 119 && ChromAcSymbols[87] == 120 && ChromAcSymbols[88] == 121 && ChromAcSymbols[89] == 122
  {
  }

  lemma ChromAcRun8(table: seq<Byte>, syms: seq<Byte>)
    requires WellFormed(table) && Symbols(table) == syms && |syms| == 162
    requires syms[19] == 129 && syms[90] == 130 && syms[91] == 131 && syms[92] == 132 && syms[93] == 133
    requires syms[94] == 134 && syms[95] == 135 && syms[96] == 136 && syms[97] == 137 && syms[98] == 138
    ensures forall s | 1 <= s <= 10 :: AcSymbol(8, s) in CodeList(table)
  {
    forall s | 1 <= s <= 10 ensures AcSymbol(8, s) in CodeList(table) {
      if s == 1 {
        ListedHasCode(table, syms, 19, AcSymbol(8, s));
      } else if s == 2 {
        ListedHasCode(table, syms, 90, AcSymbol(8, s));
      } else if s == 3 {
        ListedHasCode(table, syms, 91, AcSymbol(8, s));
      } else if s == 4 {
        ListedHasCode(table, syms, 92, AcSymbol(8, s));
      } else if s == 5 {
        ListedHasCode(table, syms, 93, AcSymbol(8, s));
      } else if s == 6 {
        ListedHasCode(table, syms, 94, AcSymbol(8, s));
      } else if s == 7 {
        ListedHasCode(table, syms, 95, AcSymbol(8, s));
      } else if s == 8 {
        ListedHasCode(table, syms, 96, AcSymbol(8, s));
      } else if s == 9 {
        ListedHasCode(table, syms, 97, AcSymbol(8, s));
      } else {
        ListedHasCode(table, syms, 98, AcSymbol(8, s));
      }
    }
  }

  lemma ChromAcRun8Values()
    ensures |ChromAcSymbols| == 162
    ensures ChromAcSymbols[19] == 129 && ChromAcSymbols[90] == 130 && ChromAcSymbols[91] == 131 && ChromAcSymbols[92] == 132 && ChromAcSymbols[93] == 133
    ensures ChromAcSymbols[94] == 134 && ChromAcSymbols[95] == 135 && ChromAcSymbols[96] == 136 && ChromAcSymbols[97] == 137 && ChromAcSymbols[98] == 138
  {
  }

  lemma ChromAcRun9(table: seq<Byte>, syms: seq<Byte>)
    requires WellFormed(table) && Symbols(table) == syms && |syms| == 162
    requires syms[23] == 145 && syms[99] == 146 && syms[100] == 147 && syms[101] == 148 && syms[102] == 149
    requires syms[103] == 150 && syms[104] == 151 && syms[105] == 152 && syms[106] == 153 && syms[107] == 154
    ensures forall s | 1 <= s <= 10 :: AcSymbol(9, s) in CodeList(table)
  {
    forall s | 1 <= s <= 10 ensures AcSymbol(9, s) in CodeList(table) {
      if s == 1 {
        ListedHasCode(table, syms, 23, AcSymbol(9, s));
      } else if s == 2 {
        ListedHasCode(table, syms, 99, AcSymbol(9, s));
      } else if s == 3 {
        ListedHasCode(table, syms, 100, AcSymbol(9, s));
      } else if s == 4 {
        ListedHasCode(table, syms, 101, AcSymbol(9, s));
      } else if s == 5 {
        ListedHasCode(table, syms, 102, AcSymbol(9, s));
      } else if s == 6 {
        ListedHasCode(table, syms, 103, AcSymbol(9, s));
      } else if s == 7 {
        ListedHasCode(table, syms, 104, AcSymbol(9, s));
      } else if s == 8 {
        ListedHasCode(table, syms, 105, AcSymbol(9, s));
      } else if s == 9 {
        ListedHasCode(table, syms, 106, AcSymbol(9, s));
      } else {
        ListedHasCode(table, syms, 107, AcSymbol(9, s));
      }
    }
  }

  lemma ChromAcRun9Values()
    ensures |ChromAcSymbols| == 162
    ensures ChromAcSymbols[23] == 145 && ChromAcSymbols[99] == 146 && ChromAcSymbols[100] == 147 && ChromAcSymbols[101] == 148 && ChromAcSymbols[102] == 149
    ensures ChromAcSymbols[103] == 150 && ChromAcSymbols[104] == 151 && ChromAcSymbols[105] == 152 && ChromAcSymbols[106] == 153 && ChromAcSymbols[107] == 154
  {
  }

  lemma ChromAcRun10(table: seq<Byte>, syms: seq<Byte>)
    requires WellFormed(table) && Symbols(table) == syms && |syms| == 162
    requires syms[24] == 161 && syms[108] == 162 && syms[109] == 163 && syms[110] == 164 && syms[111] == 165
    requires syms[112] == 166 && syms[113] == 167 && syms[114] == 168 && syms[115] == 169 && syms[116] == 170
    ensures forall s | 1 <= s <= 10 :: AcSymbol(10, s) in CodeList(table)
  {
    forall s | 1 <= s <= 10 ensures AcSymbol(10, s) in CodeList(table) {
      if s == 1 {
        ListedHasCode(table, syms, 24, AcSymbol(10, s));
      } else if s == 2 {
        ListedHasCode(table, syms, 108, AcSymbol(10, s));
      } else if s == 3 {
        ListedHasCode(table, syms, 109, AcSymbol(10, s));
      } else if s == 4 {
        ListedHasCode(table, syms, 110, AcSymbol(10, s));
      } else if s == 5 {
        ListedHasCode(table, syms, 111, AcSymbol(10, s));
      } else if s == 6 {
        ListedHasCode(table, syms, 112, AcSymbol(10, s));
      } else if s == 7 {
        ListedHasCode(table, syms, 113, AcSymbol(10, s));
      } else if s == 8 {
        ListedHasCode(table, syms, 114, AcSymbol(10, s));
      } else if s == 9 {
        ListedHasCode(table, syms, 115, AcSymbol(10, s));
      } else {
        ListedHasCode(table, syms, 116, AcSymbol(10, s));
      }
    }
  }

  lemma ChromAcRun10Values()
    ensures |ChromAcSymbols| == 162
    ensures ChromAcSymbols[24] == 161 && ChromAcSymbols[108] == 162 && ChromAcSymbols[109] == 163 && ChromAcSymbols[110] == 164 && ChromAcSymbols[111] == 165
    ensures ChromAcSymbols[112] == 166 && ChromAcSymbols[113] == 167 && ChromAcSymbols[114] == 168 && ChromAcSymbols[115] == 169 && ChromAcSymbols[116] == 170
  {
  }

  lemma ChromAcRun11(table: seq<Byte>, syms: seq<Byte>)
    requires WellFormed(table) && Symbols(table) == syms && |syms| == 162
    requires syms[25] == 177 && syms[117] == 178 && syms[118] == 179 && syms[119] == 180 && syms[120] == 181
    requires syms[121] == 182 && syms[122] == 183 && syms[123] == 184 && syms[124] == 185 && syms[125] == 186
    ensures forall s | 1 <= s <= 10 :: AcSymbol(11, s) in CodeList(table)
  {
    forall s | 1 <= s <= 10 ensures AcSymbol(11, s) in CodeList(table) {
      if s == 1 {
        ListedHasCode(table, syms, 25, AcSymbol(11, s));
      } else if s == 2 {
        ListedHasCode(table, syms, 117, AcSymbol(11, s));
      } else if s == 3 {
        ListedHasCode(table, syms, 118, AcSymbol(11, s));
      } else if s == 4 {
        ListedHasCode(table, syms, 119, AcSymbol(11, s));
      } else if s == 5 {
        ListedHasCode(table, syms, 120, AcSymbol(11, s));
      } else if s == 6 {
        ListedHasCode(table, syms, 121, AcSymbol(11, s));
      } else if s == 7 {
        ListedHasCode(table, syms, 122, AcSymbol(11, s));
      } else if s == 8 {
        ListedHasCode(table, syms, 123, AcSymbol(11, s));
      } else if s == 9 {
        ListedHasCode(table, syms, 124, AcSymbol(11, s));
      } else {
        ListedHasCode(table, syms, 125, AcSymbol(11, s));
      }
    }
  }

  lemma ChromAcRun11Values()
    ensures |ChromAcSymbols| == 162
    ensures ChromAcSymbols[25] == 177 && ChromAcSymbols[117] == 178 && ChromAcSymbols[118] == 179 && ChromAcSymbols[119] == 180 && ChromAcSymbols[120] == 181
    ensures ChromAcSymbols[121] == 182 && ChromAcSymbols[122] == 183 && ChromAcSymbols[123] == 184 && ChromAcSymbols[124] == 185 && ChromAcSymbols[125] == 186
  {
  }

  lemma ChromAcRun12(table: seq<Byte>, syms: seq<Byte>)
    requires WellFormed(table) && Symbols(table) == syms && |syms| == 162
    requires syms[26] == 193 && syms[126] == 194 && syms[127] == 195 && syms[128] == 196 && syms[129] == 197
    requires syms[130] == 198 && syms[131] == 199 && syms[132] == 200 && syms[133] == 201 && syms[134] == 202
    ensures forall s | 1 <= s <= 10 :: AcSymbol(12, s) in CodeList(table)
  {
    forall s | 1 <= s <= 10 ensures AcSymbol(12, s) in CodeList(table) {
      if s == 1 {
        ListedHasCode(table, syms, 26, AcSymbol(12, s));
      } else if s == 2 {
        ListedHasCode(table, syms, 126, AcSymbol(12, s));
      } else if s == 3 {
        ListedHasCode(table, syms, 127, AcSymbol(12, s));
      } else if s == 4 {
        ListedHasCode(table, syms, 128, AcSymbol(12, s));
      } else if s == 5 {
        ListedHasCode(table, syms, 129, AcSymbol(12, s));
      } else if s == 6 {
        ListedHasCode(table, syms, 130, AcSymbol(12, s));
      } else if s == 7 {
        ListedHasCode(table, syms, 131, AcSymbol(12, s));
      } else if s == 8 {
        ListedHasCode(table, syms, 132, AcSymbol(12, s));
      } else if s == 9 {
        ListedHasCode(table, syms, 133, AcSymbol(12, s));
      } else {
        ListedHasCode(table, syms, 134, AcSymbol(12, s));
      }
    }
  }

  lemma ChromAcRun12Values()
    ensures |ChromAcSymbols| == 162
    ensures ChromAcSymbols[26] == 193 && ChromAcSymbols[126] == 194 && ChromAcSymbols[127] == 195 && ChromAcSymbols[128] == 196 && ChromAcSymbols[129] == 197
    ensures ChromAcSymbols[130] == 198 && ChromAcSymbols[131] == 199 && ChromAcSymbols[132] == 200 && ChromAcSymbols[133] == 201 && ChromAcSymbols[134] == 202
  {
  }

  lemma ChromAcRun13(table: seq<Byte>, syms: seq<Byte>)
    requires WellFormed(table) && Symbols(table) == syms && |syms| == 162
    requires syms[35] == 209 && syms[135] == 210 && syms[136] == 211 && syms[137] == 212 && syms[138] == 213
    requires syms[139] == 214 && syms[140] == 215 && syms[141] == 216 && syms[142] == 217 && syms[143] == 218
    ensures forall s | 1 <= s <= 10 :: AcSymbol(13, s) in CodeList(table)
  {
    forall s | 1 <= s <= 10 ensures AcSymbol(13, s) in CodeList(table) {
      if s == 1 {
        ListedHasCode(table, syms, 35, AcSymbol(13, s));
      } else if s == 2 {
        ListedHasCode(table, syms, 135, AcSymbol(13, s));
      } else if s == 3 {
        ListedHasCode(table, syms, 136, AcSymbol(13, s));
      } else if s == 4 {
        ListedHasCode(table, syms, 137, AcSymbol(13, s));
      } else if s == 5 {
        ListedHasCode(table, syms, 138, AcSymbol(13, s));
      } else if s == 6 {
        ListedHasCode(table, syms, 139, AcSymbol(13, s));
      } else if s == 7 {
        ListedHasCode(table, syms, 140, AcSymbol(13, s));
      } else if s == 8 {
        ListedHasCode(table, syms, 141, AcSymbol(13, s));
      } else if s == 9 {
        ListedHasCode(table, syms, 142, AcSymbol(13, s));
      } else {
        ListedHasCode(table, syms, 143, AcSymbol(13, s));
      }
    }
  }

  lemma ChromAcRun13Values()
    ensures |ChromAcSymbols| == 162
    ensures ChromAcSymbols[35] == 209 && ChromAcSymbols[135] == 210 && ChromAcSymbols[136] == 211 && ChromAcSymbols[137] == 212 && ChromAcSymbols[138] == 213
    ensures ChromAcSymbols[139] == 214 && ChromAcSymbols[140] == 215 && ChromAcSymbols[141] == 216 && ChromAcSymbols[142] == 217 && ChromAcSymbols[143] == 218
  {
  }

  lemma ChromAcRun14(table: seq<Byte>, syms: seq<Byte>)
    requires WellFormed(table) && Symbols(table) == syms && |syms| == 162
    requires syms[40] == 225 && syms[144] == 226 && syms[145] == 227 && syms[146] == 228 && syms[147] == 229
    requires syms[148] == 230 && syms[149] == 231 && syms[150] == 232 && syms[151] == 233 && syms[152] == 234
    ensures forall s | 1 <= s <= 10 :: AcSymbol(14, s) in CodeList(table)
  {
    forall s | 1 <= s <= 10 ensures AcSymbol(14, s) in CodeList(table) {
      if s == 1 {
        ListedHasCode(table, syms, 40, AcSymbol(14, s));
      } else if s == 2 {
        ListedHasCode(table, syms, 144, AcSymbol(14, s));
      } else if s == 3 {
        ListedHasCode(table, syms, 145, AcSymbol(14, s));
      } else if s == 4 {
        ListedHasCode(table, syms, 146, AcSymbol(14, s));
      } else if s == 5 {
        ListedHasCode(table, syms, 147, AcSymbol(14, s));
      } else if s == 6 {
        ListedHasCode(table, syms, 148, AcSymbol(14, s));
      } else if s == 7 {
        ListedHasCode(table, syms, 149, AcSymbol(14, s));
      } else if s == 8 {
        ListedHasCode(table, syms, 150, AcSymbol(14, s));
      } else if s == 9 {
        ListedHasCode(table, syms, 151, AcSymbol(14, s));
      } else {
        ListedHasCode(table, syms, 152, AcSymbol(14, s));
      }
    }
  }

  lemma ChromAcRun14Values()
    ensures |ChromAcSymbols| == 162
    ensures ChromAcSymbols[40] == 225 && ChromAcSymbols[144] == 226 && ChromAcSymbols[145] == 227 && ChromAcSymbols[146] == 228 && ChromAcSymbols[147] == 229
    ensures ChromAcSymbols[148] == 230 && ChromAcSymbols[149] == 231 && ChromAcSymbols[150] == 232 && ChromAcSymbols[151] == 233 && ChromAcSymbols[152] == 234
  {
  }

  lemma ChromAcRun15(table: seq<Byte>, syms: seq<Byte>)
    requires WellFormed(table) && Symbols(table) == syms && |syms| == 162
    requires syms[42] == 241 && syms[153] == 242 && syms[154] == 243 && syms[155] == 244 && syms[156] == 245
    requires syms[157] == 246 && syms[158] == 247 && syms[159] == 248 && syms[160] == 249 && syms[161] == 250
    ensures forall s | 1 <= s <= 10 :: AcSymbol(15, s) in CodeList(table)
  {
    forall s | 1 <= s <= 10 ensures AcSymbol(15, s) in CodeList(table) {
      if s == 1 {
        ListedHasCode(table, syms, 42, AcSymbol(15, s));
      } else if s == 2 {
        ListedHasCode(table, syms, 153, AcSymbol(15, s));
      } else if s == 3 {
        ListedHasCode(table, syms, 154, AcSymbol(15, s));
      } else if s == 4 {
        ListedHasCode(table, syms, 155, AcSymbol(15, s));
      } else if s == 5 {
        ListedHasCode(table, syms, 156, AcSymbol(15, s));
      } else if s == 6 {
        ListedHasCode(table, syms, 157, AcSymbol(15, s));
      } else if s == 7 {
        ListedHasCode(table, syms, 158, AcSymbol(15, s));
      } else if s == 8 {
        ListedHasCode(table, syms, 159, AcSymbol(15, s));
      } else if s == 9 {
        ListedHasCode(table, syms, 160, AcSymbol(15, s));
      } else {
        ListedHasCode(table, syms, 161, AcSymbol(15, s));
      }
    }
  }

  lemma ChromAcRun15Values()
    ensures |ChromAcSymbols| == 162
    ensures ChromAcSymbols[42] == 241 && ChromAcSymbols[153] == 242 && ChromAcSymbols[154] == 243 && ChromAcSymbols[155] == 244 && ChromAcSymbols[156] == 245
    ensures ChromAcSymbols[157] == 246 && ChromAcSymbols[158] == 247 && ChromAcSymbols[159] == 248 && ChromAcSymbols[160] == 249 && ChromAcSymbols[161] == 250
  {
  }

  lemma ChromAcCoveredBy(table: seq<Byte>)
    requires WellFormed(table) && Symbols(table) == ChromAcSymbols
    ensures AcCovered(CodeList(table))
  {
    var syms := ChromAcSymbols;
    ChromAcSymbolsLength();
    assert syms[0] == 0x00 && syms[31] == 0xF0;
    ListedHasCode(table, syms, 0, 0x00);
    ListedHasCode(table, syms, 31, 0xF0);
    ChromAcRun0Values();
    ChromAcRun0(table, syms);
    ChromAcRun1Values();
    ChromAcRun1(table, syms);
    ChromAcRun2Values();
    ChromAcRun2(table, syms);
    ChromAcRun3Values();
    ChromAcRun3(table, syms);
    ChromAcRun4Values();
    ChromAcRun4(table, syms);
    ChromAcRun5Values();
    ChromAcRun5(table, syms);
    ChromAcRun6Values();
    ChromAcRun6(table, syms);
    ChromAcRun7Values();
    ChromAcRun7(table, syms);
    ChromAcRun8Values();
    ChromAcRun8(table, syms);
    ChromAcRun9Values();
    ChromAcRun9(table, syms);
    ChromAcRun10Values();
    ChromAcRun10(table, syms);
    ChromAcRun11Values();
    ChromAcRun11(table, syms);
    ChromAcRun12Values();
    ChromAcRun12(table, syms);
    ChromAcRun13Values();
    ChromAcRun13(table, syms);
    ChromAcRun14Values();
    ChromAcRun14(table, syms);
    ChromAcRun15Values();
    ChromAcRun15(table, syms);
    forall r, s | 0 <= r < 16 && 1 <= s <= 10 ensures AcSymbol(r, s) in CodeList(table) {
      assert r == 0 || r == 1 || r == 2 || r == 3 || r == 4 || r == 5 || r == 6 || r == 7 || r == 8 || r == 9 || r == 10 || r == 11 || r == 12 || r == 13 || r == 14 || r == 15;
    }
  }

  lemma ChromAcCovered()
    ensures WellFormed(ChromAc) && AcCovered(CodeList(ChromAc))
  {
    ChromAcFits();
    ChromAcCoveredBy(ChromAc);
  }

}

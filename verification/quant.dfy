/** Quantisation, as `JpegQuant` does it: the sample tables of section K.1
    of ITU-T T.81 scaled by a quality in the manner of the IJG library's
    `jpeg_quality_scaling`, and the per-block division of
    `quantEncode8x8`. */
module Quant {
  import opened Bits

  /** An entry of a sample table. */
  type BaseEntry = x: int | 1 <= x <= 255 witness 1

  /** `STD_QUANT_TAB_LUMIN`, in natural (row-major) order, written as two
      halves so that the verifier can index the display. */
  const LuminBase: seq<BaseEntry> := [
      16, 11, 10, 16, 24, 40, 51, 61,
      12, 12, 14, 19, 26, 58, 60, 55,
      14, 13, 16, 24, 40, 57, 69, 56,
      14, 17, 22, 29, 51, 87, 80, 62
    ] + [
      18, 22, 37, 56, 68, 109, 103, 77,
      24, 35, 55, 64, 81, 104, 113, 92,
      49, 64, 78, 87, 103, 121, 120, 101,
      72, 92, 95, 98, 112, 100, 103, 99
    ]

  /** `STD_QUANT_TAB_CHROM`. */
  const ChromBase: seq<BaseEntry> := [
      17, 18, 24, 47, 99, 99, 99, 99,
      18, 21, 26, 66, 99, 99, 99, 99,
      24, 26, 56, 99, 99, 99, 99, 99,
      47, 66, 99, 99, 99, 99, 99, 99
    ] + [
      99, 99, 99, 99, 99, 99, 99, 99,
      99, 99, 99, 99, 99, 99, 99, 99,
      99, 99, 99, 99, 99, 99, 99, 99,
      99, 99, 99, 99, 99, 99, 99, 99
    ]

  function BaseTable(luminance: bool): (t: seq<BaseEntry>)
    ensures |t| == 64
  {
    if luminance then LuminBase else ChromBase
  }

  // ---------------------------------------------------------------------
  // scaledQuality
  // ---------------------------------------------------------------------

  /** The quality forced into [1, 100]. */
  function ClampQuality(quality: int): (q: int)
    ensures 1 <= q <= 100
    ensures 1 <= quality <= 100 ==> q == quality
    ensures quality <= 0 ==> q == 1
    ensures quality > 100 ==> q == 100
  {
    if quality <= 0 then 1 else if quality > 100 then 100 else quality
  }

  /** The scaling percentage: `5000 / q` below 50, `200 - 2q` from 50 on. */
  function ScaleFactor(q: int): (s: int)
    requires 1 <= q <= 100
    ensures 0 <= s <= 5000
    ensures q == 50 ==> s == 100
    ensures q == 100 ==> s == 0
  {
    if q < 50 then 5000 / q else 200 - 2 * q
  }

  /** One entry: the base value times the percentage, rounded to nearest
      (C `long` division of a non-negative value), then clamped to
      [1, 32767], and to 255 when `force_baseline` is set. */
  function ScaleEntry(b: int, s: int, forceBaseline: bool): (t: int)
    ensures 1 <= t <= 32767
    ensures forceBaseline ==> t <= 255
  {
    var temp := TruncDiv(b * s + 50, 100);
    var t1 := if temp <= 0 then 1 else temp;
    var t2 := if t1 > 32767 then 32767 else t1;
    if forceBaseline && t2 > 255 then 255 else t2
  }

  /** `scaledQuality(quality, luminance, force_baseline)`. */
  function ScaledQuality(quality: int, luminance: bool, forceBaseline: bool): (t: seq<int>)
    ensures |t| == 64
    ensures forall i | 0 <= i < 64 :: 1 <= t[i] <= 32767 && (forceBaseline ==> t[i] <= 255)
  {
    var s := ScaleFactor(ClampQuality(quality));
    var base := BaseTable(luminance);
    seq(64, i requires 0 <= i < 64 => ScaleEntry(base[i], s, forceBaseline))
  }

  /** Qualities outside [1, 100] give the tables of the nearest bound. */
  lemma QualityClamped(quality: int, luminance: bool, forceBaseline: bool)
    ensures quality <= 0 ==> ScaledQuality(quality, luminance, forceBaseline) == ScaledQuality(1, luminance, forceBaseline)
    ensures quality > 100 ==> ScaledQuality(quality, luminance, forceBaseline) == ScaledQuality(100, luminance, forceBaseline)
  {
  }

  /** At quality 50 the base table is used as it is. */
  lemma QualityFiftyIsBase(luminance: bool, forceBaseline: bool)
    ensures ScaledQuality(50, luminance, forceBaseline) == BaseTable(luminance)
  {
    var t, base := ScaledQuality(50, luminance, forceBaseline), BaseTable(luminance);
    forall i | 0 <= i < 64 ensures t[i] == base[i] {
      EntryAtHundred(base[i], forceBaseline);
    }
  }

  /** Scaling by 100 percent keeps an entry of a sample table. */
  lemma EntryAtHundred(b: BaseEntry, forceBaseline: bool)
    ensures ScaleEntry(b, 100, forceBaseline) == b
  {
    TruncDivNonNegative(b * 100 + 50, 100);
    DivModUnique(b * 100 + 50, 100, b, 50);
  }

  /** At quality 100 the scale is 0 and every entry is 1. */
  lemma QualityHundredIsOnes(luminance: bool, forceBaseline: bool)
    ensures forall i | 0 <= i < 64 :: ScaledQuality(100, luminance, forceBaseline)[i] == 1
  {
  }

  /** A higher quality never gives a larger scaling percentage. */
  lemma ScaleMonotone(q1: int, q2: int)
    requires 1 <= q1 <= q2 <= 100
    ensures ScaleFactor(q2) <= ScaleFactor(q1)
  {
    if q2 < 50 {
      DivisorMonotone(5000, q1, q2);
    } else if q1 < 50 {
      DivisorMonotone(5000, q1, 49);
    }
  }

  /** A quotient does not grow when the divisor does. */
  lemma DivisorMonotone(a: nat, d1: int, d2: int)
    requires 0 < d1 <= d2
    ensures a / d2 <= a / d1
  {
    var q1, q2 := a / d1, a / d2;
    assert d2 * q2 <= a;
    MulMonotone(d1, d2, q2);
    assert d1 * q2 <= a;
    if q2 > q1 {
      MulMonotone(q1 + 1, q2, d1);
      assert false;
    }
  }

  /** A smaller percentage never gives a larger entry. */
  lemma EntryMonotone(b: BaseEntry, s1: int, s2: int, forceBaseline: bool)
    requires 0 <= s2 <= s1
    ensures ScaleEntry(b, s2, forceBaseline) <= ScaleEntry(b, s1, forceBaseline)
  {
    MulMonotone(s2, s1, b);
    assert b * s2 <= b * s1;
    TruncDivNonNegative(b * s1 + 50, 100);
    TruncDivNonNegative(b * s2 + 50, 100);
    DividendMonotone(b * s2 + 50, b * s1 + 50, 100);
  }

  /** A quotient does not shrink when the dividend grows. */
  lemma DividendMonotone(a1: nat, a2: nat, d: int)
    requires a1 <= a2 && d > 0
    ensures a1 / d <= a2 / d
  {
    if a1 / d > a2 / d {
      MulMonotone(a2 / d + 1, a1 / d, d);
      assert false;
    }
  }

  /** Raising the quality never coarsens any entry of the tables. */
  lemma QualityMonotone(quality1: int, quality2: int, luminance: bool, forceBaseline: bool)
    requires quality1 <= quality2
    ensures forall i | 0 <= i < 64 ::
              ScaledQuality(quality2, luminance, forceBaseline)[i] <= ScaledQuality(quality1, luminance, forceBaseline)[i]
  {
    var s1, s2 := ScaleFactor(ClampQuality(quality1)), ScaleFactor(ClampQuality(quality2));
    ScaleMonotone(ClampQuality(quality1), ClampQuality(quality2));
    forall i | 0 <= i < 64
      ensures ScaledQuality(quality2, luminance, forceBaseline)[i] <= ScaledQuality(quality1, luminance, forceBaseline)[i]
    {
      EntryMonotone(BaseTable(luminance)[i], s1, s2, forceBaseline);
    }
  }

  // ---------------------------------------------------------------------
  // quantEncode8x8
  // ---------------------------------------------------------------------

  /** A divisor table: 64 entries, each at least 1. */
  predicate Divisors(table: seq<int>)
  {
    |table| == 64 && forall i | 0 <= i < 64 :: table[i] >= 1
  }

  /** `quantEncode8x8(data8x8, luminance)` with `data8x8` pointing at
      `at`: each of the 64 coefficients there is divided by the table entry
      of the same index, with C `int` division; nothing else changes. */
  function QuantEncode8x8(data: seq<int>, at: nat, table: seq<int>): (r: seq<int>)
    requires at + 64 <= |data| && Divisors(table)
    ensures |r| == |data|
    ensures forall i | 0 <= i < |data| && !(at <= i < at + 64) :: r[i] == data[i]
    ensures forall i | 0 <= i < 64 :: r[at + i] == TruncDiv(data[at + i], table[i])
  {
    var block := seq(64, i requires 0 <= i < 64 => TruncDiv(data[at + i], table[i]));
    data[..at] + block + data[at + 64..]
  }

  /** `q` is the quotient of `d` by `t` rounded toward zero: what is left
      over has the sign of `d` and is smaller than `t`. */
  predicate TowardZero(q: int, d: int, t: int)
  {
    && (d >= 0 ==> q >= 0 && 0 <= d - t * q < t)
    && (d < 0 ==> q <= 0 && -t < d - t * q <= 0)
  }

  /** Every quantised coefficient is the quotient rounded toward zero. */
  lemma QuantQuotients(data: seq<int>, at: nat, table: seq<int>)
    requires at + 64 <= |data| && Divisors(table)
    ensures forall i | 0 <= i < 64 :: TowardZero(QuantEncode8x8(data, at, table)[at + i], data[at + i], table[i])
  {
    forall i | 0 <= i < 64 ensures TowardZero(QuantEncode8x8(data, at, table)[at + i], data[at + i], table[i]) {
      TruncDivBounds(data[at + i], table[i]);
    }
  }

  /** Dividing by a table of ones leaves the data as it is. */
  lemma QuantByOnes(data: seq<int>, at: nat, table: seq<int>)
    requires at + 64 <= |data| && Divisors(table)
    requires forall i | 0 <= i < 64 :: table[i] == 1
    ensures QuantEncode8x8(data, at, table) == data
  {
    var r := QuantEncode8x8(data, at, table);
    forall i | 0 <= i < |data| ensures r[i] == data[i] {
      if at <= i < at + 64 {
        TruncDivBounds(data[i], 1);
        assert r[at + (i - at)] == TruncDiv(data[i], 1);
      }
    }
  }

  // ---------------------------------------------------------------------
  // The JpegQuant object
  // ---------------------------------------------------------------------

  /** The members of `JpegQuant`. `forceBaseline` is the `int` member
      `force_baseline`. */
  datatype Quantizer = Quantizer(quality: int, forceBaseline: int, lumin: seq<int>, chrom: seq<int>)

  /** A table `scaledQuality` can produce: 64 entries in [1, 32767]. */
  predicate Entries(table: seq<int>)
  {
    |table| == 64 && forall i | 0 <= i < 64 :: 1 <= table[i] <= 32767
  }

  /** Both tables are ones `scaledQuality` can produce. */
  predicate Valid(q: Quantizer)
  {
    Entries(q.lumin) && Entries(q.chrom)
  }

  /** A `bool` compared with an `int` is promoted to 0 or 1. */
  function BoolInt(b: bool): (i: int)
  {
    if b then 1 else 0
  }

  /** The constructor `JpegQuant(quality, force_baseline)`: it stores the
      quality as given and builds both tables, but never assigns the member
      `force_baseline`, whose indeterminate value is the parameter
      `unset`. */
  function NewQuantizer(quality: int, forceBaseline: bool, unset: int): (q: Quantizer)
    ensures Valid(q)
    ensures q.quality == quality && q.forceBaseline == unset
    ensures q.lumin == ScaledQuality(quality, true, forceBaseline)
    ensures q.chrom == ScaledQuality(quality, false, forceBaseline)
    ensures unset == BoolInt(forceBaseline) ==> Consistent(q)
  {
    Quantizer(quality, unset, ScaledQuality(quality, true, forceBaseline), ScaledQuality(quality, false, forceBaseline))
  }

  /** `setQuality(quality, force_baseline)` as written: it returns early
      when both arguments equal the stored members, and otherwise rebuilds
      the tables without storing the new arguments. */
  function SetQuality(q: Quantizer, quality: int, forceBaseline: bool): (r: Quantizer)
    requires Valid(q)
    ensures Valid(r)
    ensures r.quality == q.quality && r.forceBaseline == q.forceBaseline
    ensures quality == q.quality && BoolInt(forceBaseline) == q.forceBaseline ==> r == q
  {
    if quality == q.quality && BoolInt(forceBaseline) == q.forceBaseline then q
    else q.(lumin := ScaledQuality(quality, true, forceBaseline), chrom := ScaledQuality(quality, false, forceBaseline))
  }

  /** `quantEncode8x8` on a quantizer: every coefficient of the block is
      its quotient by the entry of the luminance or chrominance table,
      rounded toward zero, and nothing outside the block changes. */
  function Quantize(q: Quantizer, data: seq<int>, at: nat, luminance: bool): (r: seq<int>)
    requires Valid(q) && at + 64 <= |data|
    ensures |r| == |data|
    ensures forall i | 0 <= i < |data| && !(at <= i < at + 64) :: r[i] == data[i]
    ensures forall i | 0 <= i < 64 ::
              TowardZero(r[at + i], data[at + i], if luminance then q.lumin[i] else q.chrom[i])
  {
    var table := if luminance then q.lumin else q.chrom;
    QuantQuotients(data, at, table);
    QuantEncode8x8(data, at, table)
  }

  /** The tables are those of the stored quality and flag. */
  predicate Consistent(q: Quantizer)
  {
    && q.lumin == ScaledQuality(q.quality, true, q.forceBaseline != 0)
    && q.chrom == ScaledQuality(q.quality, false, q.forceBaseline != 0)
  }

  /** As written, a quantizer built at quality 50 (with `force_baseline`
      happening to hold 0), moved to quality 75 and back to 50, keeps the
      quality-75 tables: the early return compares with a quality that was
      never updated. */
  lemma SetQualityKeepsStaleTables()
    ensures var q0 := NewQuantizer(50, false, 0);
            var q2 := SetQuality(SetQuality(q0, 75, false), 50, false);
            && q2.lumin == ScaledQuality(75, true, false)
            && q2.lumin[0] == 8 && ScaledQuality(50, true, false)[0] == 16
            && q2.lumin != ScaledQuality(50, true, false)
  {
    var q0 := NewQuantizer(50, false, 0);
    var q1 := SetQuality(q0, 75, false);
    assert q1.quality == 50 && q1.forceBaseline == 0;
    var q2 := SetQuality(q1, 50, false);
    assert q2 == q1;
    assert ScaleFactor(ClampQuality(75)) == 50;
    assert LuminBase[0] == 16;
    assert ScaledQuality(75, true, false)[0] == ScaleEntry(LuminBase[0], 50, false);
    TruncDivNonNegative(16 * 50 + 50, 100);
    DivModUnique(16 * 50 + 50, 100, 8, 50);
    QualityFiftyIsBase(true, false);
  }

  /** The constructor with `force_baseline` stored. */
  function NewQuantizerStored(quality: int, forceBaseline: bool): (q: Quantizer)
    ensures Valid(q) && Consistent(q)
    ensures q.quality == quality && q.forceBaseline == BoolInt(forceBaseline)
  {
    Quantizer(quality, BoolInt(forceBaseline), ScaledQuality(quality, true, forceBaseline), ScaledQuality(quality, false, forceBaseline))
  }

  /** `setQuality` that stores its arguments, so that the early return is
      taken only when the tables already match them. */
  function SetQualityStored(q: Quantizer, quality: int, forceBaseline: bool): (r: Quantizer)
    requires Valid(q) && Consistent(q)
    ensures Valid(r) && Consistent(r)
    ensures r.quality == quality && r.forceBaseline == BoolInt(forceBaseline)
  {
    if quality == q.quality && BoolInt(forceBaseline) == q.forceBaseline then q
    else NewQuantizerStored(quality, forceBaseline)
  }

  /** After the stored `setQuality`, the tables are those of the last
      arguments, whatever came before. */
  lemma SetQualityStoredTables(q: Quantizer, quality: int, forceBaseline: bool)
    requires Valid(q) && Consistent(q)
    ensures SetQualityStored(q, quality, forceBaseline).lumin == ScaledQuality(quality, true, forceBaseline)
    ensures SetQualityStored(q, quality, forceBaseline).chrom == ScaledQuality(quality, false, forceBaseline)
  {
    var r := SetQualityStored(q, quality, forceBaseline);
    assert (r.forceBaseline != 0) == forceBaseline;
  }
}

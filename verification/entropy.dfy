/** Entropy coding of one 8x8 block, as `HuffmanCodec::encodeBlock` does it:
    DC difference coding and run-length coding of the 63 AC coefficients
    (section F.1.2 of ITU-T T.81), then the Huffman codes and value bits that
    `huffmanEncode` and `bitstr_put_bits` emit for them. */
module Entropy {
  import opened Bits
  import opened Category
  import opened HuffmanTable
  import opened BitStream

  /** The number of coefficients of a block. */
  const BlockSize := 64

  /** `RLEITEM`: unsigned bit-fields of 4 (`runlen`), 4 (`codesize`) and 16
      (`codedata`) bits. */
  datatype RleItem = RleItem(run: nat, size: nat, data: nat)

  /** End of block: the item `(0, 0)` that ends a block early. */
  const Eob := RleItem(0, 0, 0)

  /** Storing `v` into an unsigned bit-field of `width` bits. */
  function Truncate(v: int, width: nat): (r: nat)
    ensures r < Pow2(width)
  {
    v % Pow2(width)
  }

  /** Every coefficient is a C `int` whose `abs` is defined. */
  predicate AllInt(s: seq<int>)
  {
    forall k | 0 <= k < |s| :: IsInt(s[k])
  }

  /** Every coefficient has a magnitude below 2^15, so that its category
      fits the 4-bit `codesize` field. */
  predicate Small(s: seq<int>)
  {
    forall k | 0 <= k < |s| :: Abs(s[k]) < 0x8000
  }

  /** The item the AC loop stores for coefficient `v` after `n` zeros. */
  function MakeItem(n: int, v: int): (it: RleItem)
    requires IsInt(v)
  {
    var c := CategoryEncode(v);
    RleItem(Truncate(n, 4), Truncate(c.size, 4), Truncate(c.code, 16))
  }

  /** The AC loop of `encodeBlock` over the coefficients `ac`, with `n`
      zeros already counted: a zero extends the run while it is shorter than
      15, anything else (a non-zero value, or a 16th zero) is stored as an
      item and restarts the run. The guard `j < 63` never stops the loop,
      since at most one item is stored per coefficient. */
  function RunLength(ac: seq<int>, n: nat): (items: seq<RleItem>)
    requires AllInt(ac) && n <= 15
    ensures |items| <= |ac|
    decreases |ac|
  {
    if |ac| == 0 then []
    else if ac[0] == 0 && n < 15 then RunLength(ac[1..], n + 1)
    else [MakeItem(n, ac[0])] + RunLength(ac[1..], 0)
  }

  /** `eob`: the number of items up to and including the last one whose
      size is non-zero. */
  function LastSignificant(items: seq<RleItem>): (eob: nat)
    ensures eob <= |items|
    ensures eob > 0 ==> items[eob - 1].size != 0
  {
    if |items| == 0 then 0
    else if items[|items| - 1].size != 0 then |items|
    else LastSignificant(items[..|items| - 1])
  }

  /** The final value of `eob` in the AC loop over `ac` with `n` zeros
      already counted: the number of items stored up to the last one whose
      category, before it is cut to the 4-bit `codesize`, is non-zero. */
  function LoopEob(ac: seq<int>, n: nat): (eob: nat)
    requires AllInt(ac) && n <= 15
    ensures eob <= |RunLength(ac, n)|
    decreases |ac|
  {
    if |ac| == 0 then 0
    else if ac[0] == 0 && n < 15 then LoopEob(ac[1..], n + 1)
    else
      var rest := LoopEob(ac[1..], 0);
      if rest > 0 then 1 + rest
      else if CategoryEncode(ac[0]).size != 0 then 1
      else 0
  }

  /** The items `encodeBlock` emits for the AC coefficients of a block: when
      the last coefficient is zero, everything after the last significant
      item is replaced by one end-of-block item. */
  function AcItems(block: seq<int>): (items: seq<RleItem>)
    requires |block| == BlockSize && AllInt(block)
  {
    var all := RunLength(block[1..], 0);
    if block[63] == 0 then all[..LoopEob(block[1..], 0)] + [Eob] else all
  }

  /** When every category fits its bit-field, the loop's `eob` is the
      position after the last item whose stored size is non-zero. */
  lemma {:induction false} LoopEobSignificant(ac: seq<int>, n: nat)
    requires AllInt(ac) && Small(ac) && n <= 15
    ensures LoopEob(ac, n) == LastSignificant(RunLength(ac, n))
    decreases |ac|
  {
    if |ac| > 0 {
      if ac[0] == 0 && n < 15 {
        LoopEobSignificant(ac[1..], n + 1);
      } else {
        LoopEobSignificant(ac[1..], 0);
        StoredItem(n, ac[0]);
        var rest := RunLength(ac[1..], 0);
        assert RunLength(ac, n) == [MakeItem(n, ac[0])] + rest;
        LastSignificantCons(MakeItem(n, ac[0]), rest);
      }
    }
  }

  lemma {:induction false} LastSignificantCons(it: RleItem, rest: seq<RleItem>)
    ensures LastSignificant([it] + rest)
            == if LastSignificant(rest) > 0 then 1 + LastSignificant(rest)
               else if it.size != 0 then 1 else 0
    decreases |rest|
  {
    if |rest| == 0 {
      assert [it] + rest == [it];
      assert [it][..0] == [];
    } else {
      var init := rest[..|rest| - 1];
      assert ([it] + rest)[..|rest|] == [it] + init;
      LastSignificantCons(it, init);
    }
  }

  /** For blocks of small coefficients, `AcItems` in terms of the stored
      sizes. */
  lemma AcItemsSmall(block: seq<int>)
    requires |block| == BlockSize && AllInt(block) && Small(block)
    ensures var all := RunLength(block[1..], 0);
            AcItems(block) == if block[63] == 0 then all[..LastSignificant(all)] + [Eob] else all
  {
    LoopEobSignificant(block[1..], 0);
  }

  // ---------------------------------------------------------------------
  // A reference decoder (section F.2.2.2 and Figure F.13 of ITU-T T.81)
  // ---------------------------------------------------------------------

  function Zeros(n: nat): (z: seq<int>)
    ensures |z| == n
  {
    seq(n, _ => 0)
  }

  /** Whether an item ends the block: size 0 with a run other than 15. */
  predicate IsEob(it: RleItem)
  {
    it.size == 0 && it.run != 15
  }

  /** The coefficients that items denote, up to the first end of block:
      `run` zeros, then the value EXTEND gives for `size` bits of `data`;
      `(15, 0)` stands for sixteen zeros. */
  function Expand(items: seq<RleItem>): (coeffs: seq<int>)
    decreases |items|
  {
    if |items| == 0 || IsEob(items[0]) then []
    else Zeros(items[0].run) + [Extend(items[0].data, items[0].size)] + Expand(items[1..])
  }

  /** The 63 AC coefficients a decoder reconstructs: the expanded items,
      then zeros. */
  function DecodeAc(items: seq<RleItem>): (ac: seq<int>)
  {
    var c := Expand(items);
    if |c| <= BlockSize - 1 then c + Zeros(BlockSize - 1 - |c|) else c
  }

  /** The items the AC loop produces. */
  predicate LoopItems(items: seq<RleItem>)
  {
    forall k | 0 <= k < |items| ::
      && items[k].run <= 15
      && items[k].size <= 15
      && (items[k].size == 0 ==> items[k].run == 15)
  }

  /** Every item's value bits fit its size. */
  predicate Fitted(items: seq<RleItem>)
  {
    forall k | 0 <= k < |items| :: items[k].data < Pow2(items[k].size)
  }

  lemma ZerosAppend(a: nat, b: nat)
    ensures Zeros(a) + Zeros(b) == Zeros(a + b)
  {
  }

  lemma {:induction false} RunLengthItems(ac: seq<int>, n: nat)
    requires AllInt(ac) && Small(ac) && n <= 15
    ensures LoopItems(RunLength(ac, n))
    decreases |ac|
  {
    if |ac| > 0 {
      RunLengthItems(ac[1..], if ac[0] == 0 && n < 15 then n + 1 else 0);
      if !(ac[0] == 0 && n < 15) {
        StoredItem(n, ac[0]);
      }
    }
  }

  lemma {:induction false} RunLengthFitted(ac: seq<int>, n: nat)
    requires AllInt(ac) && Small(ac) && n <= 15
    ensures Fitted(RunLength(ac, n))
    decreases |ac|
  {
    if |ac| > 0 {
      RunLengthFitted(ac[1..], if ac[0] == 0 && n < 15 then n + 1 else 0);
      if !(ac[0] == 0 && n < 15) {
        StoredItem(n, ac[0]);
      }
    }
  }

  /** The emitted items have value bits that fit their sizes. */
  lemma AcItemsFitted(block: seq<int>)
    requires |block| == BlockSize && AllInt(block) && Small(block)
    ensures Fitted(AcItems(block))
  {
    AcItemsSmall(block);
    var all := RunLength(block[1..], 0);
    RunLengthFitted(block[1..], 0);
    var eob := LastSignificant(all);
    assert forall k | 0 <= k < eob :: all[..eob][k] == all[k];
  }

  /** An item of the AC loop keeps its run, its category and its value bits
      unchanged by the bit-field widths. */
  lemma StoredItem(n: nat, v: int)
    requires IsInt(v) && Abs(v) < 0x8000 && n <= 15
    ensures var c := CategoryEncode(v);
            && c.size <= 15
            && (c.size == 0 <==> v == 0)
            && 0 <= c.code < Pow2(c.size)
            && Extend(c.code, c.size) == v
            && MakeItem(n, v) == RleItem(n, c.size, c.code)
  {
    var c := CategoryEncode(v);
    CategoryRoundTrip(v);
    SizeAtMostFifteen(v);
    SmallFields(n, c.size, c.code);
  }

  lemma SizeAtMostFifteen(v: int)
    requires Abs(v) < 0x8000
    ensures IsInt(v) && CategoryEncode(v).size <= 15
  {
    if v != 0 {
      CategoryBounds(v);
      Pow2Seventeen();
      if CategoryEncode(v).size == 16 {
        assert false;
      }
    }
  }

  /** Values that fit their bit-fields are stored unchanged. */
  lemma SmallFields(n: nat, size: nat, code: int)
    requires n <= 15 && size <= 15 && 0 <= code < Pow2(size)
    ensures Truncate(n, 4) == n && Truncate(size, 4) == size && Truncate(code, 16) == code
  {
    Pow2Seventeen();
    Pow2Monotone(size, 16);
  }

  /** The loop's items denote the coefficients they were made from, save the
      trailing zeros that are still being counted when the input ends. */
  lemma {:induction false} RunLengthExpand(ac: seq<int>, n: nat)
    requires AllInt(ac) && Small(ac) && n <= 15
    ensures ExpandInvariant(ac, n)
    decreases |ac|
  {
    if |ac| == 0 {
      assert Expand(RunLength(ac, n)) == [];
    } else if ac[0] == 0 && n < 15 {
      RunLengthExpand(ac[1..], n + 1);
      ExpandZero(ac, n);
    } else {
      RunLengthExpand(ac[1..], 0);
      ExpandStoredStep(ac, n);
    }
  }

  /** What `RunLengthExpand` states about `ac` after `n` counted zeros. */
  predicate ExpandInvariant(ac: seq<int>, n: nat)
    requires AllInt(ac) && n <= 15
  {
    var e := Expand(RunLength(ac, n));
    && |e| <= n + |ac|
    && Zeros(n) + ac == e + Zeros(n + |ac| - |e|)
  }

  lemma ExpandStoredStep(ac: seq<int>, n: nat)
    requires AllInt(ac) && Small(ac) && n <= 15 && |ac| > 0
    requires !(ac[0] == 0 && n < 15)
    requires ExpandInvariant(ac[1..], 0)
    ensures ExpandInvariant(ac, n)
  {
    ExpandStored(ac, n);
    var e := Expand(RunLength(ac, n));
    var e' := Expand(RunLength(ac[1..], 0));
    var t := |ac| - 1 - |e'|;
    assert Zeros(0) + ac[1..] == ac[1..];
    Regroup(Zeros(n), ac, e', Zeros(t));
  }

  /** A zero that extends the run adds nothing yet. */
  lemma ExpandZero(ac: seq<int>, n: nat)
    requires AllInt(ac) && |ac| > 0 && ac[0] == 0 && n < 15
    requires ExpandInvariant(ac[1..], n + 1)
    ensures ExpandInvariant(ac, n)
  {
    assert RunLength(ac, n) == RunLength(ac[1..], n + 1);
    assert ac == [0] + ac[1..];
    assert Zeros(n) + ac == Zeros(n + 1) + ac[1..];
  }

  lemma Regroup(z: seq<int>, ac: seq<int>, e: seq<int>, t: seq<int>)
    requires |ac| > 0 && ac[1..] == e + t
    ensures z + ac == (z + [ac[0]] + e) + t
  {
    assert ac == [ac[0]] + ac[1..];
  }

  /** A stored item expands to its run of zeros and its coefficient. */
  lemma ExpandStored(ac: seq<int>, n: nat)
    requires AllInt(ac) && Small(ac) && n <= 15 && |ac| > 0
    requires !(ac[0] == 0 && n < 15)
    ensures Expand(RunLength(ac, n)) == Zeros(n) + [ac[0]] + Expand(RunLength(ac[1..], 0))
  {
    StoredItem(n, ac[0]);
    var rest := RunLength(ac[1..], 0);
    var items := RunLength(ac, n);
    assert items == [MakeItem(n, ac[0])] + rest;
    assert items[1..] == rest;
    assert !IsEob(items[0]);
  }

  lemma {:induction false} ExpandAppend(a: seq<RleItem>, b: seq<RleItem>)
    requires LoopItems(a)
    ensures Expand(a + b) == Expand(a) + Expand(b)
    decreases |a|
  {
    if |a| == 0 {
      assert a + b == b;
    } else {
      var x := Zeros(a[0].run) + [Extend(a[0].data, a[0].size)];
      assert (a + b)[1..] == a[1..] + b;
      assert Expand(a + b) == x + Expand(a[1..] + b);
      ExpandAppend(a[1..], b);
      AppendAssoc(x, Expand(a[1..]), Expand(b));
    }
  }

  lemma LoopItemsSlices(items: seq<RleItem>, i: nat)
    requires LoopItems(items) && i <= |items|
    ensures LoopItems(items[..i]) && LoopItems(items[i..])
  {
    assert forall k | 0 <= k < i :: items[..i][k] == items[k];
    assert forall k | 0 <= k < |items| - i :: items[i..][k] == items[i + k];
  }

  /** The trailing-item split of the AC loop's output: the items after the
      last significant one expand to zeros only. */
  lemma {:induction false} SplitAtLastSignificant(all: seq<RleItem>)
    requires LoopItems(all)
    ensures LoopItems(all[..LastSignificant(all)])
    ensures SplitInvariant(all)
    decreases |all|
  {
    var eob := LastSignificant(all);
    LoopItemsSlices(all, eob);
    if eob == |all| {
      assert all[..eob] == all;
    } else {
      LoopItemsSlices(all, |all| - 1);
      SplitAtLastSignificant(all[..|all| - 1]);
      SplitStep(all);
    }
  }

  predicate SplitInvariant(all: seq<RleItem>)
  {
    var eob := LastSignificant(all);
    Expand(all) == Expand(all[..eob]) + Zeros(16 * (|all| - eob))
  }

  lemma SplitStep(all: seq<RleItem>)
    requires LoopItems(all) && |all| > 0 && all[|all| - 1].size == 0
    requires SplitInvariant(all[..|all| - 1])
    ensures SplitInvariant(all)
  {
    var eob := LastSignificant(all);
    var init, last := all[..|all| - 1], all[|all| - 1];
    assert eob == LastSignificant(init);
    LoopItemsSlices(all, |all| - 1);
    assert init[..eob] == all[..eob];
    SplitLast(all);
    PadWithSixteen(init, last, eob, |all|);
  }

  /** A run of sixteen zeros after items that expand to `head` and zeros
      extends the zeros. */
  lemma PadWithSixteen(init: seq<RleItem>, last: RleItem, eob: nat, n: nat)
    requires LoopItems(init) && last.size == 0 && last.run == 15 && eob <= |init| && n == |init| + 1
    requires Expand(init) == Expand(init[..eob]) + Zeros(16 * (|init| - eob))
    ensures Expand(init + [last]) == Expand(init[..eob]) + Zeros(16 * (n - eob))
  {
    var head, z := Expand(init[..eob]), Zeros(16 * (|init| - eob));
    ExpandAppend(init, [last]);
    ExpandSixteen(last);
    AppendAssoc(head, z, Zeros(16));
    ZerosAppend(16 * (|init| - eob), 16);
  }

  lemma ExpandSixteen(it: RleItem)
    requires it.size == 0 && it.run == 15
    ensures Expand([it]) == Zeros(16)
  {
    assert [it][1..] == [];
  }

  /** An end-of-block item ends the expansion. */
  lemma ExpandEob(head: seq<RleItem>)
    requires LoopItems(head)
    ensures Expand(head + [Eob]) == Expand(head)
  {
    ExpandAppend(head, [Eob]);
  }

  /** The run-length coding of a block's AC coefficients is undone by the
      reference decoder: no coefficient is lost or changed, whether or not
      an end-of-block item replaces the trailing zeros. */
  lemma AcRoundTrip(block: seq<int>)
    requires |block| == BlockSize && AllInt(block) && Small(block)
    ensures DecodeAc(AcItems(block)) == block[1..]
  {
    AcItemsSmall(block);
    var ac := block[1..];
    PaddedExpansion(ac);
    if block[63] == 0 {
      RoundTripWithEob(ac, RunLength(ac, 0));
    } else {
      assert ac[62] == block[63];
      RoundTripFull(ac, RunLength(ac, 0));
    }
  }

  /** The run-length items of `ac` expand to `ac` without its trailing
      zeros. */
  lemma PaddedExpansion(ac: seq<int>)
    requires AllInt(ac) && Small(ac)
    ensures LoopItems(RunLength(ac, 0))
    ensures var e := Expand(RunLength(ac, 0));
            |e| <= |ac| && ac == e + Zeros(|ac| - |e|)
  {
    RunLengthExpand(ac, 0);
    RunLengthItems(ac, 0);
    assert Zeros(0) + ac == ac;
  }

  lemma RoundTripWithEob(ac: seq<int>, all: seq<RleItem>)
    requires |ac| == BlockSize - 1 && LoopItems(all)
    requires |Expand(all)| <= |ac| && ac == Expand(all) + Zeros(|ac| - |Expand(all)|)
    ensures DecodeAc(all[..LastSignificant(all)] + [Eob]) == ac
  {
    var eob := LastSignificant(all);
    var head := all[..eob];
    SplitAtLastSignificant(all);
    ExpandEob(head);
    MergePadding(ac, Expand(all), Expand(head), 16 * (|all| - eob), |ac| - |Expand(all)|);
    DecodePadded(head + [Eob], ac, Expand(head));
  }

  /** Items that expand to a prefix of `ac` followed by zeros decode to
      `ac`. */
  lemma DecodePadded(items: seq<RleItem>, ac: seq<int>, c: seq<int>)
    requires |ac| == BlockSize - 1 && Expand(items) == c
    requires |c| <= |ac| && ac == c + Zeros(|ac| - |c|)
    ensures DecodeAc(items) == ac
  {
  }

  lemma MergePadding(ac: seq<int>, e: seq<int>, c: seq<int>, k1: nat, k2: nat)
    requires e == c + Zeros(k1) && ac == e + Zeros(k2)
    ensures |c| <= |ac| && ac == c + Zeros(|ac| - |c|)
  {
    ZerosAppend(k1, k2);
  }

  lemma RoundTripFull(ac: seq<int>, all: seq<RleItem>)
    requires |ac| == BlockSize - 1 && ac[62] != 0
    requires |Expand(all)| <= |ac| && ac == Expand(all) + Zeros(|ac| - |Expand(all)|)
    ensures DecodeAc(all) == ac
  {
    FullExpansion(ac, all);
    assert DecodeAc(all) == Expand(all) + Zeros(0);
  }

  /** With a non-zero last coefficient no zeros are left uncounted. */
  lemma FullExpansion(ac: seq<int>, all: seq<RleItem>)
    requires |ac| == BlockSize - 1 && ac[62] != 0
    requires |Expand(all)| <= |ac| && ac == Expand(all) + Zeros(|ac| - |Expand(all)|)
    ensures Expand(all) == ac
  {
    var e := Expand(all);
    LastOfPadded(e, 63 - |e|);
  }

  lemma LastOfPadded(e: seq<int>, k: nat)
    ensures k > 0 ==> (e + Zeros(k))[|e| + k - 1] == 0
  {
  }

  /** The shape of the emitted items: runs of at most 15 zeros, sizes of at
      most 15, no end of block except possibly one as the last item, and one
      exactly when the last coefficient is zero. */
  lemma AcItemsShape(block: seq<int>)
    requires |block| == BlockSize && AllInt(block) && Small(block)
    ensures Shaped(AcItems(block), block[63] == 0)
  {
    AcItemsSmall(block);
    var ac := block[1..];
    var all := RunLength(ac, 0);
    RunLengthItems(ac, 0);
    if block[63] == 0 {
      LastItemCoversLast(ac);
      LoopItemsSlices(all, LastSignificant(all));
      ShapedWithEob(all[..LastSignificant(all)]);
    } else {
      RunLengthExpand(ac, 0);
      assert Zeros(0) + ac == ac;
      FullExpansion(ac, all);
      ShapedFull(all);
    }
  }

  /** The shape of the emitted items: between one and 63 of them, runs and
      sizes of at most 15, no end of block except possibly one as the last
      item, and one there exactly when `eobLast` holds. */
  predicate Shaped(items: seq<RleItem>, eobLast: bool)
  {
    && 1 <= |items| <= BlockSize - 1
    && (forall k | 0 <= k < |items| :: items[k].run <= 15 && items[k].size <= 15)
    && (forall k | 0 <= k < |items| - 1 :: !IsEob(items[k]))
    && (IsEob(items[|items| - 1]) <==> eobLast)
  }

  lemma ShapedWithEob(head: seq<RleItem>)
    requires LoopItems(head) && |head| < BlockSize - 1
    ensures Shaped(head + [Eob], true)
  {
    assert forall k | 0 <= k < |head| :: (head + [Eob])[k] == head[k];
  }

  lemma ShapedFull(all: seq<RleItem>)
    requires LoopItems(all) && 1 <= |Expand(all)| && |all| <= BlockSize - 1
    ensures Shaped(all, false)
  {
  }

  /** If the loop stores an item for every coefficient, the last one is
      stored for the last coefficient, which must then be significant or a
      16th zero; a 16th zero needs 15 zeros before it, each without an item. */
  lemma LastItemCoversLast(ac: seq<int>)
    requires AllInt(ac) && Small(ac) && |ac| > 0 && ac[|ac| - 1] == 0
    ensures LastSignificant(RunLength(ac, 0)) < |ac|
  {
    var all := RunLength(ac, 0);
    if |all| == |ac| {
      LastOfFull(ac, 0);
    }
  }

  /** When the loop stores an item for every coefficient, item `k` is made
      from coefficient `k` after zero earlier zeros. */
  lemma {:induction false} EveryStepStores(ac: seq<int>, n: nat)
    requires AllInt(ac) && n <= 15
    requires |RunLength(ac, n)| == |ac|
    ensures |ac| > 0 ==> RunLength(ac, n)[0] == MakeItem(n, ac[0])
    ensures forall k | 1 <= k < |ac| :: RunLength(ac, n)[k] == MakeItem(0, ac[k])
    decreases |ac|
  {
    if |ac| > 0 {
      if ac[0] == 0 && n < 15 {
        assert false;
      }
      EveryStepStores(ac[1..], 0);
    }
  }

  lemma LastOfFull(ac: seq<int>, n: nat)
    requires AllInt(ac) && Small(ac) && n <= 15 && |ac| > 0 && ac[|ac| - 1] == 0
    requires |RunLength(ac, n)| == |ac|
    ensures RunLength(ac, n)[|ac| - 1].size == 0
  {
    EveryStepStores(ac, n);
    var k := |ac| - 1;
    if k == 0 {
      StoredItem(n, ac[0]);
    } else {
      StoredItem(0, ac[k]);
    }
  }

  // ---------------------------------------------------------------------
  // The calls to `bitstr_put_bits` for one block
  // ---------------------------------------------------------------------

  /** One call `bitstr_put_bits(stream, value, length)`. */
  datatype Field = Field(value: int, length: nat)

  /** Every call has a length `bitstr_put_bits` can shift by. */
  predicate Emittable(fields: seq<Field>)
  {
    forall k | 0 <= k < |fields| :: fields[k].length <= 32
  }

  /** The bits a sequence of calls emits. */
  function FieldBits(fields: seq<Field>): (bits: seq<Bit>)
    decreases |fields|
  {
    if |fields| == 0 then []
    else BitsOf(fields[0].value, fields[0].length) + FieldBits(fields[1..])
  }

  /** A code list whose code lengths `bitstr_put_bits` can emit. */
  predicate ValidLengths(m: map<int, CodeEntry>)
  {
    forall s | s in m :: 0 <= m[s].depth <= 32
  }

  /** `huffmanEncode(codeList, symbol)`: one call that emits the code of the
      symbol. */
  function HuffmanField(m: map<int, CodeEntry>, symbol: int): (f: Field)
    requires ValidLengths(m) && symbol in m
    ensures f.length == m[symbol].depth
    ensures BitsOf(f.value, f.length) == CodeBits(m[symbol])
  {
    Field(m[symbol].code, m[symbol].depth)
  }

  /** The DC part of `encodeBlock`: the code of the category of the
      difference, then the category's value bits. */
  function DcFields(dcList: map<int, CodeEntry>, diff: int): (fields: seq<Field>)
    requires ValidLengths(dcList)
    requires IsInt(diff) && CategoryEncode(diff).size in dcList
    ensures |fields| == 2
  {
    var c := CategoryEncode(diff);
    [HuffmanField(dcList, c.size), Field(c.code, c.size)]
  }

  /** The symbol of an item, `(runlen << 4) | codesize`. */
  function ItemSymbol(it: RleItem): (symbol: int)
  {
    AcSymbol(it.run, it.size)
  }

  /** Every item has a code in the list. */
  predicate HasCodes(acList: map<int, CodeEntry>, items: seq<RleItem>)
  {
    forall k | 0 <= k < |items| :: ItemSymbol(items[k]) in acList
  }

  /** The final loop of `encodeBlock`: per item, the code of its symbol,
      then `codesize` bits of `codedata`. */
  function AcFields(acList: map<int, CodeEntry>, items: seq<RleItem>): (fields: seq<Field>)
    requires ValidLengths(acList)
    requires HasCodes(acList, items)
    ensures |fields| == 2 * |items|
    decreases |items|
  {
    if |items| == 0 then []
    else
      [HuffmanField(acList, ItemSymbol(items[0])), Field(items[0].data, items[0].size)]
        + AcFields(acList, items[1..])
  }

  /** What `encodeBlock` needs to index its code lists: a block of C `int`s,
      a DC difference that is an `int`, and a code for every symbol it uses
      (entries for other symbols are never initialised). */
  predicate Codable(dcList: map<int, CodeEntry>, acList: map<int, CodeEntry>, block: seq<int>, dc: int)
  {
    && |block| == BlockSize && AllInt(block) && IsInt(block[0] - dc)
    && CategoryEncode(block[0] - dc).size in dcList
    && HasCodes(acList, AcItems(block))
  }

  /** All calls `encodeBlock` makes for a block with DC predictor `dc`. */
  function BlockFields(dcList: map<int, CodeEntry>, acList: map<int, CodeEntry>, block: seq<int>, dc: int): (fields: seq<Field>)
    requires ValidLengths(dcList) && ValidLengths(acList)
    requires Codable(dcList, acList, block, dc)
  {
    DcFields(dcList, block[0] - dc) + AcFields(acList, AcItems(block))
  }

  lemma {:induction false} AcFieldsEmittable(acList: map<int, CodeEntry>, items: seq<RleItem>)
    requires ValidLengths(acList)
    requires forall k | 0 <= k < |items| :: ItemSymbol(items[k]) in acList && items[k].size <= 32
    ensures Emittable(AcFields(acList, items))
    decreases |items|
  {
    if |items| > 0 {
      AcFieldsEmittable(acList, items[1..]);
    }
  }

  lemma {:induction false} RunLengthSizes(ac: seq<int>, n: nat)
    requires AllInt(ac) && n <= 15
    ensures forall k | 0 <= k < |RunLength(ac, n)| :: RunLength(ac, n)[k].size < 16
    decreases |ac|
  {
    if |ac| > 0 {
      RunLengthSizes(ac[1..], if ac[0] == 0 && n < 15 then n + 1 else 0);
      Pow2Seventeen();
    }
  }

  /** The 4-bit `codesize` field bounds every size. */
  lemma AcItemSizes(block: seq<int>)
    requires |block| == BlockSize && AllInt(block)
    ensures forall k | 0 <= k < |AcItems(block)| :: AcItems(block)[k].size < 16
  {
    var all := RunLength(block[1..], 0);
    RunLengthSizes(block[1..], 0);
    var eob := LoopEob(block[1..], 0);
    assert forall k | 0 <= k < eob :: all[..eob][k] == all[k];
  }

  /** Every call `encodeBlock` makes for a codable block has a length
      `bitstr_put_bits` accepts. */
  lemma BlockFieldsEmittable(dcList: map<int, CodeEntry>, acList: map<int, CodeEntry>, block: seq<int>, dc: int)
    requires ValidLengths(dcList) && ValidLengths(acList)
    requires Codable(dcList, acList, block, dc)
    ensures Emittable(BlockFields(dcList, acList, block, dc))
  {
    AcItemSizes(block);
    AcFieldsEmittable(acList, AcItems(block));
  }

  // ---------------------------------------------------------------------
  // Writing a block to the bit stream
  // ---------------------------------------------------------------------

  /** The calls in order, each on the stream the previous one left; like
      `encodeBlock`, nothing looks at their return values. */
  function PutFields(st: Stream, fields: seq<Field>): (r: Stream)
    requires Emittable(fields)
    decreases |fields|
  {
    if |fields| == 0 then st
    else PutFields(PutBits(st, fields[0].value, fields[0].length).0, fields[1..])
  }

  /** `encodeBlock(block, dc, luminance)` with the code lists of the chosen
      component: the stream after the block, and the new DC predictor. What
      it writes is stated by `EncodeBlockIdeal`: on a healthy writer with
      room, exactly the bits `BlockBits` of the block. */
  function EncodeBlock(st: Stream, dcList: map<int, CodeEntry>, acList: map<int, CodeEntry>, block: seq<int>, dc: int): (r: (Stream, int))
    requires ValidLengths(dcList) && ValidLengths(acList)
    requires Codable(dcList, acList, block, dc)
    ensures r.1 == block[0]
  {
    BlockFieldsEmittable(dcList, acList, block, dc);
    (PutFields(st, BlockFields(dcList, acList, block, dc)), block[0])
  }

  /** On a healthy writer with room, the calls append exactly their bits. */
  lemma {:induction false} PutFieldsIdeal(s: MemSink, bits: seq<Bit>, fields: seq<Field>)
    requires Emittable(fields)
    requires Room(s, bits + FieldBits(fields))
    ensures Room(s, bits)
    ensures PutFields(Ideal(s, bits), fields) == Ideal(s, bits + FieldBits(fields))
    decreases |fields|
  {
    if |fields| == 0 {
      assert bits + FieldBits(fields) == bits;
    } else {
      var f := fields[0];
      var head := BitsOf(f.value, f.length);
      var rest := FieldBits(fields[1..]);
      assert bits + FieldBits(fields) == (bits + head) + rest;
      RoomPrefix(s, (bits + head) + rest, |bits + head|);
      assert ((bits + head) + rest)[..|bits + head|] == bits + head;
      PutBitsIdeal(s, bits, f.value, f.length);
      PutFieldsIdeal(s, bits + head, fields[1..]);
    }
  }

  lemma {:induction false} FieldBitsAppend(a: seq<Field>, b: seq<Field>)
    ensures FieldBits(a + b) == FieldBits(a) + FieldBits(b)
    decreases |a|
  {
    if |a| == 0 {
      assert a + b == b;
    } else {
      assert (a + b)[1..] == a[1..] + b;
      FieldBitsAppend(a[1..], b);
    }
  }

  /** The bits of one block: the DC category code and value bits, then per
      item its symbol's code and value bits. */
  function BlockBits(dcList: map<int, CodeEntry>, acList: map<int, CodeEntry>, block: seq<int>, dc: int): (bits: seq<Bit>)
    requires ValidLengths(dcList) && ValidLengths(acList)
    requires Codable(dcList, acList, block, dc)
  {
    PartBits(dcList, acList, block[0] - dc, AcItems(block))
  }

  /** The bits of a block given its DC difference and its AC items. */
  function PartBits(dcList: map<int, CodeEntry>, acList: map<int, CodeEntry>, diff: int, items: seq<RleItem>): (bits: seq<Bit>)
    requires ValidLengths(dcList) && ValidLengths(acList)
    requires IsInt(diff) && CategoryEncode(diff).size in dcList && HasCodes(acList, items)
  {
    FieldBits(DcFields(dcList, diff)) + FieldBits(AcFields(acList, items))
  }

  /** On a healthy writer with room, `encodeBlock` appends the block's bits
      to those already written. */
  lemma EncodeBlockIdeal(s: MemSink, bits: seq<Bit>, dcList: map<int, CodeEntry>, acList: map<int, CodeEntry>, block: seq<int>, dc: int)
    requires ValidLengths(dcList) && ValidLengths(acList)
    requires Codable(dcList, acList, block, dc)
    requires Room(s, bits + BlockBits(dcList, acList, block, dc))
    ensures Room(s, bits)
    ensures EncodeBlock(Ideal(s, bits), dcList, acList, block, dc)
            == (Ideal(s, bits + BlockBits(dcList, acList, block, dc)), block[0])
  {
    BlockFieldsEmittable(dcList, acList, block, dc);
    FieldBitsAppend(DcFields(dcList, block[0] - dc), AcFields(acList, AcItems(block)));
    PutFieldsIdeal(s, bits, BlockFields(dcList, acList, block, dc));
  }
}

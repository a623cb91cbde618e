/** Unique decodability of the entropy-coded data: the bits `encodeBlock`
    emits for a block determine the block, and where its bits end. A decoder
    following section F.2.2 of ITU-T T.81 reads one Huffman code (which the
    prefix property makes unambiguous), then as many value bits as the
    decoded category says, and stops a block at an end-of-block code or
    after the 63rd AC coefficient. */
module Decodable {
  import opened Bits
  import opened Category
  import opened HuffmanTable
  import opened Entropy

  /** A code list in which no code is a prefix of another one, each of 1 to
      16 bits. */
  predicate PrefixCode(m: map<int, CodeEntry>)
  {
    && ValidLengths(m)
    && (forall s | s in m :: 1 <= m[s].depth <= 16)
    && (forall s, t {:trigger CodePrefix(m, s, t)} | s in m && t in m && s != t :: !CodePrefix(m, s, t))
  }

  /** The code of symbol `s` is a prefix of the code of symbol `t`. */
  predicate CodePrefix(m: map<int, CodeEntry>, s: int, t: int)
  {
    && s in m && t in m && 0 <= m[s].depth <= 32 && 0 <= m[t].depth <= 32
    && CodeBits(m[s]) <= CodeBits(m[t])
  }

  /** `initCodeList` builds a prefix code from every well-formed table that
      satisfies the Kraft bound. */
  lemma TablePrefixCode(table: seq<Byte>)
    requires WellFormed(table) && Fits(table)
    ensures PrefixCode(CodeList(table)) && ValidLengths(CodeList(table))
  {
    var m := CodeList(table);
    CodeListPrefixFree(table);
    forall s, t | s in m && t in m && s != t
      ensures !CodePrefix(m, s, t)
    {
      assert !(CodeBits(m[s]) <= CodeBits(m[t]));
    }
  }

  /** The four code lists of the standard tables are prefix codes. */
  lemma StandardPrefixCodes()
    ensures WellFormed(LuminDc) && PrefixCode(CodeList(LuminDc))
    ensures WellFormed(ChromDc) && PrefixCode(CodeList(ChromDc))
    ensures WellFormed(LuminAc) && PrefixCode(CodeList(LuminAc))
    ensures WellFormed(ChromAc) && PrefixCode(CodeList(ChromAc))
  {
    LuminDcFits();
    TablePrefixCode(LuminDc);
    ChromDcFits();
    TablePrefixCode(ChromDc);
    LuminAcFits();
    TablePrefixCode(LuminAc);
    ChromAcFits();
    TablePrefixCode(ChromAc);
  }

  // ---------------------------------------------------------------------
  // Bit strings that start alike
  // ---------------------------------------------------------------------

  /** Of two strings that continue to the same string, the shorter is a
      prefix of the longer. */
  lemma CommonPrefix(a: seq<Bit>, x: seq<Bit>, b: seq<Bit>, y: seq<Bit>)
    requires a + x == b + y
    ensures |a| <= |b| ==> a <= b
    ensures |b| <= |a| ==> b <= a
  {
    var w := a + x;
    assert a == w[..|a|];
    assert b == w[..|b|];
  }

  lemma CancelPrefix(a: seq<Bit>, x: seq<Bit>, y: seq<Bit>)
    requires a + x == a + y
    ensures x == y
  {
    assert x == (a + x)[|a|..];
    assert y == (a + y)[|a|..];
  }

  /** A prefix code is read unambiguously: the code at the front of the
      bits names one symbol. */
  lemma SameSymbol(m: map<int, CodeEntry>, s: int, t: int, x: seq<Bit>, y: seq<Bit>)
    requires PrefixCode(m) && s in m && t in m
    requires CodeBits(m[s]) + x == CodeBits(m[t]) + y
    ensures s == t && x == y
  {
    PrefixOrder(m, s, t, x, y);
    CancelPrefix(CodeBits(m[s]), x, y);
  }

  /** Of two codes that start the same bits, one is a prefix of the other. */
  lemma PrefixOrder(m: map<int, CodeEntry>, s: int, t: int, x: seq<Bit>, y: seq<Bit>)
    requires PrefixCode(m) && s in m && t in m
    requires CodeBits(m[s]) + x == CodeBits(m[t]) + y
    ensures CodePrefix(m, s, t) || CodePrefix(m, t, s)
  {
    CommonPrefix(CodeBits(m[s]), x, CodeBits(m[t]), y);
  }

  /** `n` value bits at the front determine a value below `2^n`. */
  lemma SameValue(a: int, b: int, n: nat, x: seq<Bit>, y: seq<Bit>)
    requires 0 <= a < Pow2(n) && 0 <= b < Pow2(n)
    requires BitsOf(a, n) + x == BitsOf(b, n) + y
    ensures a == b && x == y
  {
    CommonPrefix(BitsOf(a, n), x, BitsOf(b, n), y);
    assert BitsOf(a, n) == BitsOf(b, n);
    ValueOfBitsOf(a, n);
    ValueOfBitsOf(b, n);
    CancelPrefix(BitsOf(a, n), x, y);
  }

  // ---------------------------------------------------------------------
  // The DC difference
  // ---------------------------------------------------------------------

  lemma DcFieldBits(dcList: map<int, CodeEntry>, d: int)
    requires ValidLengths(dcList)
    requires IsInt(d) && CategoryEncode(d).size in dcList
    ensures FieldBits(DcFields(dcList, d))
            == CodeBits(dcList[CategoryEncode(d).size]) + BitsOf(CategoryEncode(d).code, CategoryEncode(d).size)
  {
    var c := CategoryEncode(d);
    var fs := DcFields(dcList, d);
    var h, v := fs[0], fs[1];
    assert fs[1..][1..] == [];
    assert FieldBits(fs[1..]) == BitsOf(v.value, v.length) + FieldBits([]);
    assert BitsOf(h.value, h.length) == CodeBits(dcList[c.size]);
  }

  /** A code followed by as many value bits as its symbol says determines
      the symbol and the value. */
  lemma CodeValueUnique(m: map<int, CodeEntry>, s1: nat, s2: nat, c1: int, c2: int, x: seq<Bit>, y: seq<Bit>)
    requires PrefixCode(m) && s1 in m && s2 in m
    requires 0 <= c1 < Pow2(s1) && 0 <= c2 < Pow2(s2)
    requires CodeBits(m[s1]) + BitsOf(c1, s1) + x == CodeBits(m[s2]) + BitsOf(c2, s2) + y
    ensures s1 == s2 && c1 == c2 && x == y
  {
    var v1, v2 := BitsOf(c1, s1), BitsOf(c2, s2);
    AppendAssoc(CodeBits(m[s1]), v1, x);
    AppendAssoc(CodeBits(m[s2]), v2, y);
    SameSymbol(m, s1, s2, v1 + x, v2 + y);
    SameValue(c1, c2, s1, x, y);
  }

  /** The DC part of a block's bits determines the difference. */
  lemma DcUnique(dcList: map<int, CodeEntry>, d1: int, d2: int, x: seq<Bit>, y: seq<Bit>)
    requires PrefixCode(dcList)
    requires Abs(d1) < 0x1_0000 && Abs(d2) < 0x1_0000
    requires CategoryEncode(d1).size in dcList && CategoryEncode(d2).size in dcList
    requires FieldBits(DcFields(dcList, d1)) + x == FieldBits(DcFields(dcList, d2)) + y
    ensures d1 == d2 && x == y
  {
    var c1, c2 := CategoryEncode(d1), CategoryEncode(d2);
    DcFieldBits(dcList, d1);
    DcFieldBits(dcList, d2);
    CategoryRoundTrip(d1);
    CategoryRoundTrip(d2);
    CodeValueUnique(dcList, c1.size, c2.size, c1.code, c2.code, x, y);
  }

  // ---------------------------------------------------------------------
  // The AC items
  // ---------------------------------------------------------------------

  /** Items as `encodeBlock` stores them: 4-bit run and size, value bits
      that fit the size. */
  predicate ItemsFit(items: seq<RleItem>)
  {
    forall k | 0 <= k < |items| ::
      items[k].run <= 15 && items[k].size <= 15 && items[k].data < Pow2(items[k].size)
  }


  /** Where a decoder stops: `items` describe exactly the `left` remaining
      coefficients of a block. The list ends at an end of block, or with the
      item that reaches the last coefficient. */
  predicate Complete(items: seq<RleItem>, left: int)
    decreases |items|
  {
    && |items| > 0 && left > 0
    && if IsEob(items[0]) then |items| == 1
       else
         var rest := left - (items[0].run + 1);
         && rest >= 0
         && if rest == 0 then |items| == 1 else Complete(items[1..], rest)
  }

  /** The symbol `(run << 4) | size` determines run and size. */
  lemma SymbolFields(a: RleItem, b: RleItem)
    requires a.run <= 15 && a.size <= 15 && b.run <= 15 && b.size <= 15
    requires ItemSymbol(a) == ItemSymbol(b)
    ensures a.run == b.run && a.size == b.size
  {
    DivModUnique(ItemSymbol(a), 16, a.run, a.size);
    DivModUnique(ItemSymbol(a), 16, b.run, b.size);
  }

  lemma AcFieldsCons(acList: map<int, CodeEntry>, items: seq<RleItem>, x: seq<Bit>)
    requires ValidLengths(acList) && HasCodes(acList, items) && |items| > 0
    ensures HasCodes(acList, items[1..])
    ensures FieldBits(AcFields(acList, items)) + x
            == CodeBits(acList[ItemSymbol(items[0])])
               + BitsOf(items[0].data, items[0].size) + (FieldBits(AcFields(acList, items[1..])) + x)
  {
    var fs := AcFields(acList, items);
    var rest := AcFields(acList, items[1..]);
    var h, v := fs[0], fs[1];
    assert fs[1..][1..] == rest;
    assert FieldBits(fs) == BitsOf(h.value, h.length) + (BitsOf(v.value, v.length) + FieldBits(rest));
    var c, d, r := BitsOf(h.value, h.length), BitsOf(v.value, v.length), FieldBits(rest);
    AppendAssoc(c, d, r);
    AppendAssoc(c + d, r, x);
  }

  /** The first item is read unambiguously. */
  lemma ItemUnique(acList: map<int, CodeEntry>, a: RleItem, b: RleItem, x: seq<Bit>, y: seq<Bit>)
    requires PrefixCode(acList) && ItemSymbol(a) in acList && ItemSymbol(b) in acList
    requires a.run <= 15 && a.size <= 15 && a.data < Pow2(a.size)
    requires b.run <= 15 && b.size <= 15 && b.data < Pow2(b.size)
    requires CodeBits(acList[ItemSymbol(a)]) + BitsOf(a.data, a.size) + x
             == CodeBits(acList[ItemSymbol(b)]) + BitsOf(b.data, b.size) + y
    ensures a == b && x == y
  {
    var v1, v2 := BitsOf(a.data, a.size), BitsOf(b.data, b.size);
    AppendAssoc(CodeBits(acList[ItemSymbol(a)]), v1, x);
    AppendAssoc(CodeBits(acList[ItemSymbol(b)]), v2, y);
    SameSymbol(acList, ItemSymbol(a), ItemSymbol(b), v1 + x, v2 + y);
    SymbolFields(a, b);
    SameValue(a.data, b.data, a.size, x, y);
  }

  /** Two complete lists with the same first item both stop after it, or
      both go on with the same number of coefficients left. */
  lemma CompleteStep(i1: seq<RleItem>, i2: seq<RleItem>, left: int)
    requires Complete(i1, left) && Complete(i2, left) && i1[0] == i2[0]
    ensures |i1| == 1 <==> |i2| == 1
    ensures |i1| > 1 ==> Complete(i1[1..], left - (i1[0].run + 1)) && Complete(i2[1..], left - (i1[0].run + 1))
  {
  }

  /** The AC part of a block's bits determines the items and where they
      end. */
  lemma {:induction false} ItemsUnique(acList: map<int, CodeEntry>, i1: seq<RleItem>, i2: seq<RleItem>, left: int, x: seq<Bit>, y: seq<Bit>)
    requires PrefixCode(acList)
    requires HasCodes(acList, i1) && HasCodes(acList, i2)
    requires ItemsFit(i1) && ItemsFit(i2)
    requires Complete(i1, left) && Complete(i2, left)
    requires FieldBits(AcFields(acList, i1)) + x == FieldBits(AcFields(acList, i2)) + y
    ensures i1 == i2 && x == y
    decreases |i1|
  {
    FirstItem(acList, i1, i2, x, y);
    CompleteStep(i1, i2, left);
    if |i1| == 1 {
      LastItem(acList, i1, i2, x, y);
    } else {
      ItemsUnique(acList, i1[1..], i2[1..], left - (i1[0].run + 1), x, y);
      assert i1 == [i1[0]] + i1[1..];
      assert i2 == [i2[0]] + i2[1..];
    }
  }

  /** The first items agree, and so do the bits after them. */
  lemma FirstItem(acList: map<int, CodeEntry>, i1: seq<RleItem>, i2: seq<RleItem>, x: seq<Bit>, y: seq<Bit>)
    requires PrefixCode(acList)
    requires HasCodes(acList, i1) && HasCodes(acList, i2)
    requires ItemsFit(i1) && ItemsFit(i2) && |i1| > 0 && |i2| > 0
    requires FieldBits(AcFields(acList, i1)) + x == FieldBits(AcFields(acList, i2)) + y
    ensures i1[0] == i2[0]
    ensures HasCodes(acList, i1[1..]) && HasCodes(acList, i2[1..])
    ensures ItemsFit(i1[1..]) && ItemsFit(i2[1..])
    ensures FieldBits(AcFields(acList, i1[1..])) + x == FieldBits(AcFields(acList, i2[1..])) + y
  {
    AcFieldsCons(acList, i1, x);
    AcFieldsCons(acList, i2, y);
    var t1 := FieldBits(AcFields(acList, i1[1..])) + x;
    var t2 := FieldBits(AcFields(acList, i2[1..])) + y;
    ItemUnique(acList, i1[0], i2[0], t1, t2);
    ItemsFitTail(i1);
    ItemsFitTail(i2);
  }

  /** After a last item nothing is left to read. */
  lemma LastItem(acList: map<int, CodeEntry>, i1: seq<RleItem>, i2: seq<RleItem>, x: seq<Bit>, y: seq<Bit>)
    requires ValidLengths(acList) && |i1| == 1 && |i2| == 1 && i1[0] == i2[0]
    requires FieldBits(AcFields(acList, i1[1..])) + x == FieldBits(AcFields(acList, i2[1..])) + y
    ensures i1 == i2 && x == y
  {
    assert i1[1..] == [] && i2[1..] == [];
    assert AcFields(acList, i1[1..]) == [] && AcFields(acList, i2[1..]) == [];
    assert FieldBits([]) + x == x && FieldBits([]) + y == y;
    assert i1 == [i1[0]] && i2 == [i2[0]];
  }

  lemma ItemsFitTail(items: seq<RleItem>)
    requires ItemsFit(items) && |items| > 0
    ensures ItemsFit(items[1..])
  {
    assert forall k | 0 <= k < |items| - 1 :: items[1..][k] == items[k + 1];
  }

  // ---------------------------------------------------------------------
  // The items of a block are complete
  // ---------------------------------------------------------------------

  /** The number of coefficients items cover when none ends the block. */
  function Span(items: seq<RleItem>): (n: nat)
    decreases |items|
  {
    if |items| == 0 then 0 else items[0].run + 1 + Span(items[1..])
  }

  lemma {:induction false} SpanAppend(a: seq<RleItem>, b: seq<RleItem>)
    ensures Span(a + b) == Span(a) + Span(b)
    decreases |a|
  {
    if |a| == 0 {
      assert a + b == b;
    } else {
      assert (a + b)[1..] == a[1..] + b;
      SpanAppend(a[1..], b);
    }
  }

  /** Without an end of block, items expand to as many coefficients as
      they cover. */
  lemma {:induction false} SpanExpand(items: seq<RleItem>)
    requires LoopItems(items)
    ensures |Expand(items)| == Span(items)
    decreases |items|
  {
    if |items| > 0 {
      LoopItemsSlices(items, 1);
      SpanExpand(items[1..]);
    }
  }

  /** Items that cover less than `left` coefficients before their last
      one, and that end with an end of block or exactly at `left`, are
      complete. */
  lemma {:induction false} CompleteFromSpan(items: seq<RleItem>, left: int)
    requires |items| > 0
    requires forall k | 0 <= k < |items| - 1 :: !IsEob(items[k])
    requires Span(items[..|items| - 1]) < left
    requires IsEob(items[|items| - 1]) || Span(items) == left
    ensures Complete(items, left)
    decreases |items|
  {
    var n := |items|;
    if n > 1 {
      var tail := items[1..];
      var rest := left - (items[0].run + 1);
      assert items[..n - 1][1..] == tail[..n - 2];
      assert forall k | 0 <= k < n - 2 :: tail[k] == items[k + 1];
      CompleteFromSpan(tail, rest);
    } else {
      assert items[..0] == [];
      assert items[1..] == [];
    }
  }

  /** The last coefficient an item expands to is its own, which is non-zero
      when its size is. */
  lemma ExpandEndsWith(head: seq<RleItem>)
    requires LoopItems(head) && Fitted(head) && |head| > 0
    requires head[|head| - 1].size != 0
    ensures |Expand(head)| > 0 && Expand(head)[|Expand(head)| - 1] != 0
  {
    var last := head[|head| - 1];
    var init := head[..|head| - 1];
    SplitLast(head);
    LoopItemsSlices(head, |head| - 1);
    ExpandAppend(init, [last]);
    assert [last][1..] == [];
    ExtendNonZero(last.data, last.size);
  }

  /** EXTEND of at least one bit never yields 0. */
  lemma ExtendNonZero(c: int, t: nat)
    requires t > 0 && 0 <= c < Pow2(t)
    ensures Extend(c, t) != 0
  {
    assert Pow2(t) == 2 * Pow2(t - 1);
  }

  /** The items of a block describe exactly its 63 AC coefficients. */
  lemma AcItemsComplete(block: seq<int>)
    requires |block| == BlockSize && AllInt(block) && Small(block)
    ensures Complete(AcItems(block), BlockSize - 1)
  {
    AcItemsSmall(block);
    AcItemsShape(block);
    AcRoundTrip(block);
    var ac := block[1..];
    var all := RunLength(ac, 0);
    RunLengthItems(ac, 0);
    RunLengthFitted(ac, 0);
    if block[63] == 0 {
      CompleteWithEob(ac, all, AcItems(block));
    } else {
      RunLengthExpand(ac, 0);
      CompleteFull(ac, all);
    }
  }

  /** Significant items followed by an end of block are complete. */
  lemma CompleteWithEob(ac: seq<int>, all: seq<RleItem>, items: seq<RleItem>)
    requires |ac| == BlockSize - 1 && ac[62] == 0
    requires LoopItems(all) && Fitted(all)
    requires items == all[..LastSignificant(all)] + [Eob]
    requires Shaped(items, true) && DecodeAc(items) == ac
    ensures Complete(items, BlockSize - 1)
  {
    var eob := LastSignificant(all);
    LoopItemsSlices(all, eob);
    var head := all[..eob];
    assert items[..|items| - 1] == head;
    ExpandEob(head);
    SpanExpand(head);
    HeadShort(ac, all, head);
    CompleteFromSpan(items, BlockSize - 1);
  }

  /** Items that reach the last coefficient without an end of block are
      complete. */
  lemma CompleteFull(ac: seq<int>, all: seq<RleItem>)
    requires |ac| == BlockSize - 1 && ac[62] != 0
    requires AllInt(ac) && Small(ac) && all == RunLength(ac, 0)
    requires LoopItems(all) && Shaped(all, false) && ExpandInvariant(ac, 0)
    ensures Complete(all, BlockSize - 1)
  {
    assert Zeros(0) + ac == ac;
    FullExpansion(ac, all);
    FullSpan(ac, all);
    CompleteFromSpan(all, BlockSize - 1);
  }

  /** When the last coefficient is zero, the significant items cover less
      than all 63 coefficients: the last coefficient they expand to is
      non-zero. */
  lemma HeadShort(ac: seq<int>, all: seq<RleItem>, head: seq<RleItem>)
    requires |ac| == BlockSize - 1 && ac[62] == 0
    requires LoopItems(all) && Fitted(all) && head == all[..LastSignificant(all)]
    requires LoopItems(head)
    requires DecodeAc(head + [Eob]) == ac && Expand(head + [Eob]) == Expand(head)
    ensures |Expand(head)| < BlockSize - 1
  {
    var eob := LastSignificant(all);
    assert forall k | 0 <= k < eob :: head[k] == all[k];
    if eob > 0 {
      ExpandEndsWith(head);
    }
  }

  /** Without an end of block the items cover all 63 coefficients, the
      last item reaching the last one. */
  lemma FullSpan(ac: seq<int>, all: seq<RleItem>)
    requires |ac| == BlockSize - 1 && LoopItems(all) && |all| > 0
    requires Expand(all) == ac
    ensures Span(all[..|all| - 1]) < BlockSize - 1 && Span(all) == BlockSize - 1
  {
    SpanExpand(all);
    var n := |all|;
    SplitLast(all);
    SpanAppend(all[..n - 1], [all[n - 1]]);
    SpanSingle(all[n - 1]);
  }

  lemma SpanSingle(item: RleItem)
    ensures Span([item]) == item.run + 1
  {
    assert [item][1..] == [];
  }

  // ---------------------------------------------------------------------
  // One block
  // ---------------------------------------------------------------------

  lemma AcItemsFit(block: seq<int>)
    requires |block| == BlockSize && AllInt(block) && Small(block)
    ensures ItemsFit(AcItems(block))
  {
    AcItemsShape(block);
    AcItemsFitted(block);
  }

  /** Given the DC predictor, the bits of a block determine the block and
      where its bits end: no two blocks share their bits, and no block's
      bits are a proper prefix of another's. */
  lemma BlockUnique(dcList: map<int, CodeEntry>, acList: map<int, CodeEntry>, b1: seq<int>, b2: seq<int>, dc: int, x: seq<Bit>, y: seq<Bit>)
    requires PrefixCode(dcList) && PrefixCode(acList)
    requires Codable(dcList, acList, b1, dc) && Codable(dcList, acList, b2, dc)
    requires Small(b1) && Small(b2) && Abs(dc) < 0x8000
    requires BlockBits(dcList, acList, b1, dc) + x == BlockBits(dcList, acList, b2, dc) + y
    ensures b1 == b2 && x == y
  {
    PartFacts(dcList, acList, b1, dc);
    PartFacts(dcList, acList, b2, dc);
    CoreUnique(dcList, acList, b1[0] - dc, b2[0] - dc, AcItems(b1), AcItems(b2), x, y);
    SameBlock(b1, b2);
  }

  lemma SameBlock(b1: seq<int>, b2: seq<int>)
    requires |b1| == |b2| > 0 && b1[0] == b2[0] && b1[1..] == b2[1..]
    ensures b1 == b2
  {
    assert b1 == [b1[0]] + b1[1..];
    assert b2 == [b2[0]] + b2[1..];
  }

  /** What a decoder of one block relies on: a DC difference it can code,
      and run/size items that fit, have codes and end where the block
      ends. */
  lemma PartFacts(dcList: map<int, CodeEntry>, acList: map<int, CodeEntry>, b: seq<int>, dc: int)
    requires Codable(dcList, acList, b, dc) && Small(b) && Abs(dc) < 0x8000
    ensures Readable(dcList, acList, b[0] - dc, AcItems(b))
    ensures b[1..] == DecodeAc(AcItems(b))
  {
    assert Abs(b[0]) < 0x8000;
    AcItemsFit(b);
    AcItemsComplete(b);
    AcRoundTrip(b);
  }

  /** A DC difference and AC items a decoder can read back. */
  predicate Readable(dcList: map<int, CodeEntry>, acList: map<int, CodeEntry>, d: int, items: seq<RleItem>)
  {
    && Abs(d) < 0x1_0000 && IsInt(d) && CategoryEncode(d).size in dcList
    && ItemsFit(items) && HasCodes(acList, items) && Complete(items, BlockSize - 1)
  }

  /** The DC difference and the AC items of a block are recovered from its
      bits, along with the bits that follow them. */
  lemma CoreUnique(dcList: map<int, CodeEntry>, acList: map<int, CodeEntry>, d1: int, d2: int, i1: seq<RleItem>, i2: seq<RleItem>, x: seq<Bit>, y: seq<Bit>)
    requires PrefixCode(dcList) && PrefixCode(acList)
    requires Readable(dcList, acList, d1, i1) && Readable(dcList, acList, d2, i2)
    requires PartBits(dcList, acList, d1, i1) + x == PartBits(dcList, acList, d2, i2) + y
    ensures d1 == d2 && i1 == i2 && x == y
  {
    var a1, a2 := FieldBits(AcFields(acList, i1)), FieldBits(AcFields(acList, i2));
    AppendAssoc(FieldBits(DcFields(dcList, d1)), a1, x);
    AppendAssoc(FieldBits(DcFields(dcList, d2)), a2, y);
    DcUnique(dcList, d1, d2, a1 + x, a2 + y);
    ItemsUnique(acList, i1, i2, BlockSize - 1, x, y);
  }
}

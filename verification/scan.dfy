/** The scan of `HuffmanCodec::encode`: the blocks of the three planes in
    the interleaved order each subsampling format fixes, one DC predictor
    per component, the luminance tables for Y and the chrominance tables for
    U and V (sections A.2.3 and F.1.2 of ITU-T T.81). */
module Scan {
  import opened Bits
  import opened Category
  import opened HuffmanTable
  import opened Stuffing
  import opened BitStream
  import opened Entropy
  import opened Decodable

  // ---------------------------------------------------------------------
  // Formats and the MCU grid
  // ---------------------------------------------------------------------

  /** `YUVFormat`. The enum can hold other values, which reach the `throw`. */
  datatype YuvFormat = Yuv444 | Yuv420 | Yuv422 | OtherFormat(code: int)

  predicate Supported(f: YuvFormat)
  {
    !f.OtherFormat?
  }

  /** `div_up(a, b)`, with C division. */
  function DivUp(a: int, b: int): (q: int)
    requires b > 0
  {
    TruncDiv(a + b - 1, b)
  }

  /** For a non-negative `a`, `div_up` is the least number of `b`-wide
      pieces that cover `a`. */
  lemma DivUpCeiling(a: int, b: int)
    requires a >= 0 && b > 0
    ensures DivUp(a, b) >= 0
    ensures b * (DivUp(a, b) - 1) < a <= b * DivUp(a, b)
  {
    TruncDivNonNegative(a + b - 1, b);
    var q := (a + b - 1) / b;
    assert a + b - 1 == b * q + (a + b - 1) % b;
  }

  /** Width and height in pixels of one MCU. */
  function UnitWidth(f: YuvFormat): (width: int)
  {
    if f.Yuv444? then 8 else 16
  }

  function UnitHeight(f: YuvFormat): (height: int)
  {
    if f.Yuv420? then 16 else 8
  }

  /** The luminance blocks of one MCU. */
  function Luma(f: YuvFormat): (count: nat)
  {
    match f
    case Yuv444 => 1
    case Yuv420 => 4
    case Yuv422 => 2
    case OtherFormat(_) => 0
  }

  /** The blocks of one MCU: its luminance blocks, one U and one V block. */
  function PerUnit(f: YuvFormat): (count: nat)
  {
    Luma(f) + 2
  }

  /** The number of loop iterations of `encode`: MCU columns times MCU rows. */
  function UnitCount(f: YuvFormat, w: int, h: int): (n: nat)
    requires 0 <= w && 0 <= h
  {
    DivUpCeiling(w, UnitWidth(f));
    DivUpCeiling(h, UnitHeight(f));
    DivUp(w, UnitWidth(f)) * DivUp(h, UnitHeight(f))
  }

  /** The MCU grid is the smallest one that covers the image: one column or
      row fewer would leave pixels out. */
  lemma GridCovers(f: YuvFormat, w: int, h: int)
    requires 0 <= w && 0 <= h
    ensures var cols, rows := DivUp(w, UnitWidth(f)), DivUp(h, UnitHeight(f));
            && UnitCount(f, w, h) == cols * rows
            && UnitWidth(f) * (cols - 1) < w <= UnitWidth(f) * cols
            && UnitHeight(f) * (rows - 1) < h <= UnitHeight(f) * rows
  {
    DivUpCeiling(w, UnitWidth(f));
    DivUpCeiling(h, UnitHeight(f));
  }

  // ---------------------------------------------------------------------
  // The block order
  // ---------------------------------------------------------------------

  datatype Component = Y | U | V

  /** One `encodeBlock` call: a component and a block of its plane. */
  datatype BlockRef = BlockRef(comp: Component, index: nat)

  /** The calls of iteration `i` of the loop of `encode`. */
  function UnitRefs(f: YuvFormat, i: nat): (refs: seq<BlockRef>)
    requires Supported(f)
  {
    match f
    case Yuv444 => [BlockRef(Y, i), BlockRef(U, i), BlockRef(V, i)]
    case Yuv420 =>
      [BlockRef(Y, 4 * i), BlockRef(Y, 4 * i + 1), BlockRef(Y, 4 * i + 2), BlockRef(Y, 4 * i + 3),
       BlockRef(U, i), BlockRef(V, i)]
    case Yuv422 => [BlockRef(Y, 2 * i), BlockRef(Y, 2 * i + 1), BlockRef(U, i), BlockRef(V, i)]
  }

  /** The calls of the first `n` iterations. */
  function Order(f: YuvFormat, n: nat): (refs: seq<BlockRef>)
    requires Supported(f)
    ensures |refs| == n * PerUnit(f)
  {
    if n == 0 then [] else Order(f, n - 1) + UnitRefs(f, n - 1)
  }

  /** The number of blocks of a component that `n` iterations use. */
  function Count(f: YuvFormat, n: nat, c: Component): (count: nat)
  {
    if c == Y then Luma(f) * n else n
  }

  /** Where block `r` comes in the order: iteration, then offset in it. */
  function Position(f: YuvFormat, r: BlockRef): (pos: nat)
    requires Supported(f)
  {
    var L, P := Luma(f), PerUnit(f);
    match r.comp
    case Y => P * (r.index / L) + r.index % L
    case U => P * r.index + L
    case V => P * r.index + L + 1
  }

  /** Every MCU is laid out alike: its luminance blocks in order, then U,
      then V. */
  lemma UnitRefsAt(f: YuvFormat, i: nat, k: nat)
    requires Supported(f) && k < PerUnit(f)
    ensures var L := Luma(f);
            UnitRefs(f, i)[k]
            == if k < L then BlockRef(Y, L * i + k) else if k == L then BlockRef(U, i) else BlockRef(V, i)
  {
  }

  /** Entry `k` of the order is entry `k mod P` of iteration `k div P`. */
  lemma {:induction false} OrderAt(f: YuvFormat, n: nat, k: nat)
    requires Supported(f) && k < n * PerUnit(f)
    ensures Order(f, n)[k] == UnitRefs(f, k / PerUnit(f))[k % PerUnit(f)]
  {
    var P := PerUnit(f);
    if k < (n - 1) * P {
      OrderAt(f, n - 1, k);
    } else {
      DivModUnique(k, P, n - 1, k - (n - 1) * P);
    }
  }

  /** Every entry of the order is a block the iterations use, and it sits
      at its position: so no block is visited twice. */
  lemma OrderOnce(f: YuvFormat, n: nat, k: nat)
    requires Supported(f) && k < |Order(f, n)|
    ensures Order(f, n)[k].index < Count(f, n, Order(f, n)[k].comp)
    ensures Position(f, Order(f, n)[k]) == k
  {
    var P := PerUnit(f);
    OrderAt(f, n, k);
    SplitIndex(k, P, n);
    UnitOnce(f, n, k / P, k % P);
  }

  /** Entry `o` of iteration `q < n` is a block the iterations use, and
      its position is `P * q + o`. */
  lemma UnitOnce(f: YuvFormat, n: nat, q: nat, o: nat)
    requires Supported(f) && q < n && o < PerUnit(f)
    ensures UnitRefs(f, q)[o].index < Count(f, n, UnitRefs(f, q)[o].comp)
    ensures Position(f, UnitRefs(f, q)[o]) == PerUnit(f) * q + o
  {
    var L := Luma(f);
    UnitRefsAt(f, q, o);
    if o < L {
      Compose(q, o, L, n);
      PositionOfLuma(f, q, o);
    } else {
      MulMonotone(q + 1, n, 1);
    }
  }

  /** Every block the iterations use is visited, at its position. */
  lemma OrderPosition(f: YuvFormat, n: nat, r: BlockRef)
    requires Supported(f) && r.index < Count(f, n, r.comp)
    ensures Position(f, r) < |Order(f, n)| && Order(f, n)[Position(f, r)] == r
  {
    var u, o := Slot(f, r);
    OrderSlot(f, n, u, o);
  }

  /** Offset `o` of iteration `u` is entry `P * u + o` of the order. */
  lemma OrderSlot(f: YuvFormat, n: nat, u: nat, o: nat)
    requires Supported(f) && u < n && o < PerUnit(f)
    ensures PerUnit(f) * u + o < |Order(f, n)|
    ensures Order(f, n)[PerUnit(f) * u + o] == UnitRefs(f, u)[o]
  {
    var P := PerUnit(f);
    var k := P * u + o;
    Compose(u, o, P, n);
    assert k < n * P;
    OrderAt(f, n, k);
    var q, m := k / P, k % P;
    assert q == u && m == o;
    assert Order(f, n)[k] == UnitRefs(f, q)[m];
  }

  /** The iteration and the offset in it at which block `r` is visited. */
  lemma Slot(f: YuvFormat, r: BlockRef) returns (u: nat, o: nat)
    requires Supported(f)
    ensures o < PerUnit(f) && Position(f, r) == PerUnit(f) * u + o
    ensures forall n: nat | r.index < Count(f, n, r.comp) :: u < n
    ensures UnitRefs(f, u)[o] == r
  {
    var L := Luma(f);
    if r.comp == Y {
      u, o := r.index / L, r.index % L;
      forall n: nat | r.index < Count(f, n, r.comp) ensures u < n {
        SplitIndex(r.index, L, n);
      }
      UnitRefsAt(f, u, o);
    } else {
      u, o := r.index, if r.comp == U then L else L + 1;
      UnitRefsAt(f, u, o);
    }
  }

  /** Splitting an index below `n * d` into quotient and remainder. */
  lemma SplitIndex(k: nat, d: nat, n: nat)
    requires d > 0 && k < n * d
    ensures k / d < n && k % d < d && k == d * (k / d) + k % d
  {
    var q := k / d;
    assert d * q <= k;
    if q >= n {
      MulMonotone(n, q, d);
      assert false;
    }
  }

  /** Quotient and remainder of `d * u + o` for an offset below `d`. */
  lemma Compose(u: nat, o: nat, d: nat, n: nat)
    requires o < d && u < n
    ensures d * u + o < d * n
    ensures (d * u + o) / d == u && (d * u + o) % d == o
  {
    MulMonotone(u + 1, n, d);
    assert (u + 1) * d == d * u + d;
    DivModUnique(d * u + o, d, u, o);
  }

  /** The position of a luminance block, from its iteration and offset. */
  lemma PositionOfLuma(f: YuvFormat, q: nat, o: nat)
    requires Supported(f) && o < Luma(f)
    ensures Position(f, BlockRef(Y, Luma(f) * q + o)) == PerUnit(f) * q + o
  {
    DivModUnique(Luma(f) * q + o, Luma(f), q, o);
  }

  // ---------------------------------------------------------------------
  // Code lists and block contents
  // ---------------------------------------------------------------------

  /** The four code lists of a `HuffmanCodec`. */
  datatype CodeLists = CodeLists(
    dcLumin: map<int, CodeEntry>, dcChrom: map<int, CodeEntry>,
    acLumin: map<int, CodeEntry>, acChrom: map<int, CodeEntry>)

  /** Prefix codes that cover the DC categories 0..11 and the AC symbols of
      categories 1..10. */
  predicate Ready(c: CodeLists)
  {
    && PrefixCode(c.dcLumin) && PrefixCode(c.dcChrom)
    && PrefixCode(c.acLumin) && PrefixCode(c.acChrom)
    && DcCovered(c.dcLumin) && DcCovered(c.dcChrom)
    && AcCovered(c.acLumin) && AcCovered(c.acChrom)
  }

  /** The constructor `HuffmanCodec()`: `initCodeList` for the four standard
      tables. */
  function NewCodec(): (c: CodeLists)
    ensures Ready(c)
  {
    StandardPrefixCodes();
    LuminDcCovered();
    ChromDcCovered();
    LuminAcCovered();
    ChromAcCovered();
    CodeLists(CodeList(LuminDc), CodeList(ChromDc), CodeList(LuminAc), CodeList(ChromAc))
  }

  /** `luminance ? mCodeListDCLumin : mCodeListDCChrom`, with `luminance`
      true for Y only. */
  function DcList(c: CodeLists, comp: Component): (list: map<int, CodeEntry>)
  {
    if comp == Y then c.dcLumin else c.dcChrom
  }

  function AcList(c: CodeLists, comp: Component): (list: map<int, CodeEntry>)
  {
    if comp == Y then c.acLumin else c.acChrom
  }

  /** A block the covering code lists can code against the predictor
      `pred`: C `int` coefficients, a DC difference `block[0] - pred` below
      2^11 in magnitude (category at most 11, the DC symbols of section
      F.1.2.1 of ITU-T T.81) and AC coefficients below 2^10 in magnitude
      (category at most 10, the AC symbols). */
  predicate InRange(block: seq<int>, pred: int)
  {
    && |block| == BlockSize && IsInt(block[0]) && -2048 < block[0] - pred < 2048
    && forall k | 1 <= k < BlockSize :: -1024 < block[k] < 1024
  }

  /** An item whose symbol a covering AC list codes. */
  predicate CoveredItem(it: RleItem)
  {
    || it == Eob
    || (it.run == 15 && it.size == 0)
    || (it.run < 16 && 1 <= it.size <= 10)
  }

  lemma Pow2Eleven()
    ensures Pow2(10) == 1024 && Pow2(11) == 2048
  {
    Pow2Seventeen();
    assert Pow2(9) == 2 * Pow2(8);
  }

  /** A coefficient below 2^10 in magnitude has category at most 10, a DC
      difference below 2^11 has category at most 11. */
  lemma CategoryAtMost(v: int, t: nat)
    requires t == 10 || t == 11
    requires Abs(v) < Pow2(t)
    ensures IsInt(v) && CategoryEncode(v).size <= t
  {
    Pow2Eleven();
    if v != 0 {
      CategoryBounds(v);
      if CategoryEncode(v).size > t {
        Pow2Monotone(t, CategoryEncode(v).size - 1);
      }
    }
  }

  /** The item stored for `v` after `n` zeros has a covered symbol. */
  lemma MakeItemCovered(n: nat, v: int)
    requires n <= 15 && Abs(v) < 1024 && (v != 0 || n == 15)
    ensures IsInt(v) && CoveredItem(MakeItem(n, v))
  {
    Pow2Seventeen();
    Pow2Eleven();
    CategoryAtMost(v, 10);
    assert Truncate(n, 4) == n;
  }

  lemma {:induction false} RunLengthCovered(ac: seq<int>, n: nat)
    requires n <= 15
    requires forall k | 0 <= k < |ac| :: -1024 < ac[k] < 1024
    ensures AllInt(ac)
    ensures forall k | 0 <= k < |RunLength(ac, n)| :: CoveredItem(RunLength(ac, n)[k])
    decreases |ac|
  {
    if |ac| > 0 {
      var n' := if ac[0] == 0 && n < 15 then n + 1 else 0;
      RunLengthCovered(ac[1..], n');
      if !(ac[0] == 0 && n < 15) {
        MakeItemCovered(n, ac[0]);
      }
    }
  }

  /** The items of a block with AC coefficients below 2^10 in magnitude all
      have codes in a covering AC list. */
  lemma AcItemsCovered(m: map<int, CodeEntry>, block: seq<int>, pred: int)
    requires InRange(block, pred) && AcCovered(m)
    ensures AllInt(block)
    ensures HasCodes(m, AcItems(block))
  {
    RunLengthCovered(block[1..], 0);
    var items := AcItems(block);
    forall k | 0 <= k < |items| ensures CoveredItem(items[k]) {
      if block[63] == 0 {
        var all := RunLength(block[1..], 0);
        var eob := LoopEob(block[1..], 0);
        if k < eob {
          assert items[k] == all[k];
        }
      }
    }
    forall k | 0 <= k < |items| ensures ItemSymbol(items[k]) in m {
      assert CoveredItem(items[k]);
    }
  }

  /** With covering code lists, `encodeBlock` finds a code for everything a
      block it can code against the predictor `dc` gives it. */
  lemma BlockCodable(c: CodeLists, comp: Component, block: seq<int>, dc: int)
    requires Ready(c) && InRange(block, dc)
    ensures Codable(DcList(c, comp), AcList(c, comp), block, dc)
    ensures Small(block[1..]) && Abs(block[0] - dc) < 2048
  {
    Pow2Eleven();
    CategoryAtMost(block[0] - dc, 11);
    AcItemsCovered(AcList(c, comp), block, dc);
  }

  /** A DC coefficient outside [-1024, 1023] is coded as long as it stays
      within 2047 of its predictor: here 1500 after 1000. */
  lemma FarDcCodable(c: CodeLists)
    requires Ready(c)
    ensures var b := [1500] + seq(BlockSize - 1, _ => 0);
            InRange(b, 1000) && Codable(DcList(c, Y), AcList(c, Y), b, 1000)
  {
    var b := [1500] + seq(BlockSize - 1, _ => 0);
    assert forall k | 1 <= k < BlockSize :: b[k] == 0;
    BlockCodable(c, Y, b, 1000);
  }

  /** The block with its DC coefficient replaced by the difference from the
      predictor `pred`. */
  function Shift(block: seq<int>, pred: int): (d: seq<int>)
    requires |block| == BlockSize
    ensures |d| == BlockSize
  {
    [block[0] - pred] + block[1..]
  }

  /** `encodeBlock` sees a block only through its DC difference and its AC
      coefficients: the shifted block, coded against 0, gives the same bits,
      and its coefficients are all below 2^15 in magnitude. */
  lemma ShiftBits(c: CodeLists, comp: Component, block: seq<int>, dc: int)
    requires Ready(c) && InRange(block, dc)
    ensures Codable(DcList(c, comp), AcList(c, comp), block, dc)
    ensures Codable(DcList(c, comp), AcList(c, comp), Shift(block, dc), 0) && Small(Shift(block, dc))
    ensures BlockBits(DcList(c, comp), AcList(c, comp), Shift(block, dc), 0)
            == BlockBits(DcList(c, comp), AcList(c, comp), block, dc)
  {
    var d := Shift(block, dc);
    BlockCodable(c, comp, block, dc);
    assert d[1..] == block[1..];
    assert d[63] == block[63];
    assert forall k | 1 <= k < BlockSize :: d[k] == block[k];
    assert AllInt(d);
    assert AcItems(d) == AcItems(block);
  }

  /** A block is recovered from its shifted form and the predictor. */
  lemma ShiftInjective(b1: seq<int>, b2: seq<int>, pred: int)
    requires |b1| == BlockSize && |b2| == BlockSize
    requires Shift(b1, pred) == Shift(b2, pred)
    ensures b1 == b2
  {
    assert Shift(b1, pred)[1..] == b1[1..];
    assert Shift(b2, pred)[1..] == b2[1..];
    assert Shift(b1, pred)[0] == b1[0] - pred;
    assert Shift(b2, pred)[0] == b2[0] - pred;
    SameBlock(b1, b2);
  }

  // ---------------------------------------------------------------------
  // The encoding loop
  // ---------------------------------------------------------------------

  /** `dcCache`: the DC predictor of each component. */
  datatype Predictors = Predictors(y: int, u: int, v: int)

  /** `int dcCache[3] = {0, 0, 0}`: every call of `encode` starts afresh. */
  const Start := Predictors(0, 0, 0)

  function Predictor(p: Predictors, comp: Component): (pred: int)
  {
    match comp
    case Y => p.y
    case U => p.u
    case V => p.v
  }

  function Update(p: Predictors, comp: Component, dc: int): (q: Predictors)
    ensures Predictor(q, comp) == dc
    ensures forall c | c != comp :: Predictor(q, c) == Predictor(p, c)
  {
    match comp
    case Y => p.(y := dc)
    case U => p.(u := dc)
    case V => p.(v := dc)
  }

  /** The coefficient arrays `yBlocks`, `uBlocks`, `vBlocks`: 64 per block,
      one block after another. */
  datatype Planes = Planes(y: seq<int>, u: seq<int>, v: seq<int>)

  function Plane(p: Planes, comp: Component): (plane: seq<int>)
  {
    match comp
    case Y => p.y
    case U => p.u
    case V => p.v
  }

  /** Block `r.index` lies inside its plane. */
  predicate Present(p: Planes, r: BlockRef)
  {
    BlockSize * r.index + BlockSize <= |Plane(p, r.comp)|
  }

  /** The block at `plane + 64 * index`. */
  function Block(p: Planes, r: BlockRef): (b: seq<int>)
    requires Present(p, r)
    ensures |b| == BlockSize
  {
    Plane(p, r.comp)[BlockSize * r.index..BlockSize * r.index + BlockSize]
  }

  /** Every block `refs` names is present and codable against the predictor
      of its component, starting from `dc` and updated by each block in
      turn, as `encodeBlock` updates `dcCache`. */
  predicate RefsReady(p: Planes, dc: Predictors, refs: seq<BlockRef>)
    decreases |refs|
  {
    |refs| > 0 ==>
      && Present(p, refs[0])
      && InRange(Block(p, refs[0]), Predictor(dc, refs[0].comp))
      && RefsReady(p, Update(dc, refs[0].comp, Block(p, refs[0])[0]), refs[1..])
  }

  predicate AllPresent(p: Planes, refs: seq<BlockRef>)
  {
    forall k | 0 <= k < |refs| :: Present(p, refs[k])
  }

  lemma {:induction false} ReadyPresent(p: Planes, dc: Predictors, refs: seq<BlockRef>)
    requires RefsReady(p, dc, refs)
    ensures AllPresent(p, refs)
    decreases |refs|
  {
    if |refs| > 0 {
      ReadyPresent(p, Update(dc, refs[0].comp, Block(p, refs[0])[0]), refs[1..]);
      assert forall k | 1 <= k < |refs| :: refs[k] == refs[1..][k - 1];
    }
  }

  /** The calls `encodeBlock(block, dcCache[comp], comp == Y)` for `refs`,
      in order: the stream and predictors afterwards. The predictor of the
      last block's component is that block's DC coefficient. */
  function EncodeRefs(st: Stream, c: CodeLists, p: Planes, dc: Predictors, refs: seq<BlockRef>): (r: (Stream, Predictors))
    requires Ready(c) && RefsReady(p, dc, refs)
    ensures |refs| > 0 ==>
              var last := refs[|refs| - 1];
              Present(p, last) && Predictor(r.1, last.comp) == Block(p, last)[0]
    decreases |refs|
  {
    if |refs| == 0 then (st, dc)
    else
      var r := refs[0];
      var b := Block(p, r);
      BlockCodable(c, r.comp, b, Predictor(dc, r.comp));
      var (st1, d) := EncodeBlock(st, DcList(c, r.comp), AcList(c, r.comp), b, Predictor(dc, r.comp));
      assert |refs| > 1 ==> refs[1..][|refs| - 2] == refs[|refs| - 1];
      EncodeRefs(st1, c, p, Update(dc, r.comp, d), refs[1..])
  }

  /** The bits of the blocks `refs`, each coded against the DC of the
      previous block of its component. */
  function RefsBits(c: CodeLists, p: Planes, dc: Predictors, refs: seq<BlockRef>): (bits: seq<Bit>)
    requires Ready(c) && RefsReady(p, dc, refs)
    decreases |refs|
  {
    if |refs| == 0 then []
    else
      var r := refs[0];
      var b := Block(p, r);
      BlockCodable(c, r.comp, b, Predictor(dc, r.comp));
      BlockBits(DcList(c, r.comp), AcList(c, r.comp), b, Predictor(dc, r.comp))
        + RefsBits(c, p, Update(dc, r.comp, b[0]), refs[1..])
  }

  /** On a healthy writer with room, the loop appends the bits of the
      blocks to those already written. */
  lemma {:induction false} EncodeRefsIdeal(s: MemSink, bits: seq<Bit>, c: CodeLists, p: Planes, dc: Predictors, refs: seq<BlockRef>)
    requires Ready(c) && RefsReady(p, dc, refs)
    requires Room(s, bits + RefsBits(c, p, dc, refs))
    ensures Room(s, bits)
    ensures EncodeRefs(Ideal(s, bits), c, p, dc, refs).0 == Ideal(s, bits + RefsBits(c, p, dc, refs))
    decreases |refs|
  {
    if |refs| == 0 {
      assert bits + RefsBits(c, p, dc, refs) == bits;
    } else {
      var head, next := RefsStep(s, bits, c, p, dc, refs);
      RefsEncodeStep(s, bits, c, p, dc, refs, head, next);
      EncodeRefsIdeal(s, bits + head, c, p, next, refs[1..]);
    }
  }

  /** One step of `RefsBits`: the bits of the first block, `head`, come
      before those of the rest, coded from the DC `next`. */
  lemma RefsStep(s: MemSink, bits: seq<Bit>, c: CodeLists, p: Planes, dc: Predictors, refs: seq<BlockRef>)
      returns (head: seq<Bit>, next: Predictors)
    requires Ready(c) && RefsReady(p, dc, refs) && |refs| > 0
    requires Room(s, bits + RefsBits(c, p, dc, refs))
    ensures RefsReady(p, next, refs[1..]) && Room(s, bits) && Room(s, bits + head)
    ensures Codable(DcList(c, refs[0].comp), AcList(c, refs[0].comp), Block(p, refs[0]), Predictor(dc, refs[0].comp))
    ensures head == BlockBits(DcList(c, refs[0].comp), AcList(c, refs[0].comp), Block(p, refs[0]), Predictor(dc, refs[0].comp))
    ensures next == Update(dc, refs[0].comp, Block(p, refs[0])[0])
    ensures bits + RefsBits(c, p, dc, refs) == (bits + head) + RefsBits(c, p, next, refs[1..])
  {
    var r := refs[0];
    var b := Block(p, r);
    var pred := Predictor(dc, r.comp);
    BlockCodable(c, r.comp, b, pred);
    head := BlockBits(DcList(c, r.comp), AcList(c, r.comp), b, pred);
    next := Update(dc, r.comp, b[0]);
    var rest := RefsBits(c, p, next, refs[1..]);
    AppendAssoc(bits, head, rest);
    RoomFront(s, bits + head, rest);
    RoomFront(s, bits, head);
  }

  /** One step of `EncodeRefs` on a healthy writer: the first block is
      written as its bits `head`. */
  lemma RefsEncodeStep(s: MemSink, bits: seq<Bit>, c: CodeLists, p: Planes, dc: Predictors, refs: seq<BlockRef>, head: seq<Bit>, next: Predictors)
    requires Ready(c) && RefsReady(p, dc, refs) && |refs| > 0
    requires Codable(DcList(c, refs[0].comp), AcList(c, refs[0].comp), Block(p, refs[0]), Predictor(dc, refs[0].comp))
    requires head == BlockBits(DcList(c, refs[0].comp), AcList(c, refs[0].comp), Block(p, refs[0]), Predictor(dc, refs[0].comp))
    requires next == Update(dc, refs[0].comp, Block(p, refs[0])[0])
    requires Room(s, bits + head)
    ensures RefsReady(p, next, refs[1..])
    ensures EncodeRefs(Ideal(s, bits), c, p, dc, refs) == EncodeRefs(Ideal(s, bits + head), c, p, next, refs[1..])
  {
    var r := refs[0];
    EncodeBlockIdeal(s, bits, DcList(c, r.comp), AcList(c, r.comp), Block(p, r), Predictor(dc, r.comp));
  }

  /** The bits determine the blocks: two plane sets whose blocks `refs`
      code to the same bits (up to what follows) agree on those blocks. */
  lemma {:induction false} RefsUnique(c: CodeLists, p1: Planes, p2: Planes, dc: Predictors, refs: seq<BlockRef>, x: seq<Bit>, y: seq<Bit>)
    requires Ready(c) && RefsReady(p1, dc, refs) && RefsReady(p2, dc, refs)
    requires RefsBits(c, p1, dc, refs) + x == RefsBits(c, p2, dc, refs) + y
    ensures x == y
    ensures forall k | 0 <= k < |refs| ::
              Present(p1, refs[k]) && Present(p2, refs[k]) && Block(p1, refs[k]) == Block(p2, refs[k])
    decreases |refs|
  {
    ReadyPresent(p1, dc, refs);
    ReadyPresent(p2, dc, refs);
    if |refs| == 0 {
      assert [] + x == x && [] + y == y;
    } else {
      var next := HeadUnique(c, p1, p2, dc, refs, x, y);
      RefsUnique(c, p1, p2, next, refs[1..], x, y);
      TailAgrees(p1, p2, refs);
    }
  }

  /** The first block is recovered, and with it the predictors for the
      rest. */
  lemma HeadUnique(c: CodeLists, p1: Planes, p2: Planes, dc: Predictors, refs: seq<BlockRef>, x: seq<Bit>, y: seq<Bit>)
    returns (next: Predictors)
    requires Ready(c) && RefsReady(p1, dc, refs) && RefsReady(p2, dc, refs) && |refs| > 0
    requires RefsBits(c, p1, dc, refs) + x == RefsBits(c, p2, dc, refs) + y
    ensures Block(p1, refs[0]) == Block(p2, refs[0])
    ensures RefsReady(p1, next, refs[1..]) && RefsReady(p2, next, refs[1..])
    ensures RefsBits(c, p1, next, refs[1..]) + x == RefsBits(c, p2, next, refs[1..]) + y
  {
    var r := refs[0];
    var b1, b2 := Block(p1, r), Block(p2, r);
    var pred := Predictor(dc, r.comp);
    var dl, al := DcList(c, r.comp), AcList(c, r.comp);
    ShiftBits(c, r.comp, b1, pred);
    ShiftBits(c, r.comp, b2, pred);
    next := Update(dc, r.comp, b1[0]);
    var rest1, rest2 := RefsBits(c, p1, next, refs[1..]), RefsBits(c, p2, Update(dc, r.comp, b2[0]), refs[1..]);
    AppendAssoc(BlockBits(dl, al, b1, pred), rest1, x);
    AppendAssoc(BlockBits(dl, al, b2, pred), rest2, y);
    BlockUnique(dl, al, Shift(b1, pred), Shift(b2, pred), 0, rest1 + x, rest2 + y);
    ShiftInjective(b1, b2, pred);
  }

  lemma TailAgrees(p1: Planes, p2: Planes, refs: seq<BlockRef>)
    requires AllPresent(p1, refs) && AllPresent(p2, refs) && |refs| > 0
    requires Block(p1, refs[0]) == Block(p2, refs[0])
    requires forall k | 0 <= k < |refs[1..]| :: Block(p1, refs[1..][k]) == Block(p2, refs[1..][k])
    ensures forall k | 0 <= k < |refs| :: Block(p1, refs[k]) == Block(p2, refs[k])
  {
    forall k | 0 <= k < |refs| ensures Block(p1, refs[k]) == Block(p2, refs[k]) {
      if k > 0 {
        assert refs[k] == refs[1..][k - 1];
      }
    }
  }

  // ---------------------------------------------------------------------
  // `encode`
  // ---------------------------------------------------------------------

  /** The blocks the `n` iterations visit are present and, in visiting
      order and starting from the zero predictors, codable. */
  predicate PlanesReady(p: Planes, f: YuvFormat, n: nat)
    requires Supported(f)
  {
    RefsReady(p, Start, Order(f, n))
  }

  /** The bits of the whole scan. */
  function ScanBits(c: CodeLists, p: Planes, f: YuvFormat, n: nat): (bits: seq<Bit>)
    requires Ready(c) && Supported(f) && PlanesReady(p, f, n)
  {
    RefsBits(c, p, Start, Order(f, n))
  }

  /** The result of `encode`: the stream and the returned length, or the
      `runtime_error` for an unsupported format. */
  datatype Outcome = Encoded(stream: Stream, length: int) | Thrown

  /** `HuffmanCodec::encode` on the codec's stream `st`, returning
      `bitstr_tell` right after the last block. */
  function Encode(c: CodeLists, st: Stream, p: Planes, w: int, h: int, f: YuvFormat): (r: Outcome)
    requires Ready(c) && 0 <= w && 0 <= h
    requires Supported(f) ==> PlanesReady(p, f, UnitCount(f, w, h))
    ensures r.Thrown? <==> !Supported(f)
  {
    if !Supported(f) then Thrown
    else
      var n := UnitCount(f, w, h);
      var st1 := EncodeRefs(st, c, p, Start, Order(f, n)).0;
      Encoded(st1, Tell(st1))
  }

  /** `encode` with the pad flush of the destructor moved before
      `bitstr_tell`, so that the returned length covers the last byte. */
  function EncodeFlushed(c: CodeLists, st: Stream, p: Planes, w: int, h: int, f: YuvFormat): (r: Outcome)
    requires Ready(c) && 0 <= w && 0 <= h
    requires Supported(f) ==> PlanesReady(p, f, UnitCount(f, w, h))
    ensures r.Thrown? <==> !Supported(f)
  {
    if !Supported(f) then Thrown
    else
      var n := UnitCount(f, w, h);
      var st1 := EncodeRefs(st, c, p, Start, Order(f, n)).0;
      if 0 <= st1.bitnum <= 8 then
        var st2 := Flush(st1, true).0;
        Encoded(st2, Tell(st2))
      else Encoded(st1, Tell(st1))
  }

  /** The bytes `mBuffer` holds from its start up to a length. */
  function Payload(r: Outcome): (bytes: seq<Byte>)
    requires r.Encoded? && 0 <= r.length <= |r.stream.sink.buf|
  {
    r.stream.sink.buf[..r.length]
  }

  /** Run on the fresh memory stream of `mBuffer` with room for the scan,
      the loop leaves a healthy writer that has written the scan's bits. */
  lemma ScanIdeal(c: CodeLists, buf: seq<Byte>, p: Planes, f: YuvFormat, n: nat)
    requires Ready(c) && Supported(f) && PlanesReady(p, f, n)
    requires Room(MemSink(buf, 0), ScanBits(c, p, f, n))
    ensures EncodeRefs(Open(buf), c, p, Start, Order(f, n)).0 == Ideal(MemSink(buf, 0), ScanBits(c, p, f, n))
  {
    var bits := ScanBits(c, p, f, n);
    OpenIdeal(buf);
    assert [] + bits == bits;
    EncodeRefsIdeal(MemSink(buf, 0), [], c, p, Start, Order(f, n));
  }

  /** `encode` on a fresh memory stream with room for the scan: the stream
      holds the scan's bits and the result is its `bitstr_tell`. */
  lemma EncodeIdeal(c: CodeLists, buf: seq<Byte>, p: Planes, w: int, h: int, f: YuvFormat)
    requires Ready(c) && 0 <= w && 0 <= h && Supported(f)
    requires PlanesReady(p, f, UnitCount(f, w, h))
    requires Room(MemSink(buf, 0), ScanBits(c, p, f, UnitCount(f, w, h)))
    ensures var st := Ideal(MemSink(buf, 0), ScanBits(c, p, f, UnitCount(f, w, h)));
            Encode(c, Open(buf), p, w, h, f) == Encoded(st, Tell(st))
  {
    ScanIdeal(c, buf, p, f, UnitCount(f, w, h));
  }

  /** The same for the corrected `encode`, which also writes the padding. */
  lemma EncodeFlushedIdeal(c: CodeLists, buf: seq<Byte>, p: Planes, w: int, h: int, f: YuvFormat)
    requires Ready(c) && 0 <= w && 0 <= h && Supported(f)
    requires PlanesReady(p, f, UnitCount(f, w, h))
    requires var bits := ScanBits(c, p, f, UnitCount(f, w, h));
             Room(MemSink(buf, 0), bits + Pad(bits, true))
    ensures var bits := ScanBits(c, p, f, UnitCount(f, w, h));
            var st := Ideal(MemSink(buf, 0), bits + Pad(bits, true));
            EncodeFlushed(c, Open(buf), p, w, h, f) == Encoded(st, Tell(st))
  {
    var n := UnitCount(f, w, h);
    var bits := ScanBits(c, p, f, n);
    FlushIdeal(MemSink(buf, 0), bits, true);
    ScanIdeal(c, buf, p, f, n);
  }

  /** The result reports the stuffed bytes of the first `8 * (|bits| / 8)`
      bits only, while the last `|bits| % 8` bits wait in the register. */
  predicate ReportsCompleteBytes(r: Outcome, bits: seq<Bit>)
  {
    && r.Encoded? && 0 <= r.length <= |r.stream.sink.buf|
    && r.stream.bitnum == |bits| % 8
    && Payload(r) == Stuff(PackBytes(bits[..Aligned(|bits|)]))
    && Unpack(PackBytes(bits[..Aligned(|bits|)])) == bits[..Aligned(|bits|)]
  }

  /** The result reports stuffed bytes that hold all of `bits`, followed by
      1-bits up to the byte boundary, and nothing is left in the register. */
  predicate ReportsAll(r: Outcome, bits: seq<Bit>)
  {
    var padded := bits + Pad(bits, true);
    && r.Encoded? && 0 <= r.length <= |r.stream.sink.buf|
    && r.stream.bitnum == 0
    && Payload(r) == Stuff(PackBytes(padded))
    && Unpack(PackBytes(padded)) == padded
    && Unpack(PackBytes(padded))[..|bits|] == bits
  }

  /** What a healthy writer that started at the beginning of `buf` and
      wrote `bits` holds, with `bitstr_tell` as the length. */
  lemma IdealOutcome(r: Outcome, buf: seq<Byte>, bits: seq<Bit>)
    requires Room(MemSink(buf, 0), bits)
    requires r == Encoded(Ideal(MemSink(buf, 0), bits), Tell(Ideal(MemSink(buf, 0), bits)))
    ensures ReportsCompleteBytes(r, bits)
  {
    UnpackPackBytes(bits[..Aligned(|bits|)]);
  }

  lemma WholeBytes(bits: seq<Bit>)
    requires |bits| % 8 == 0
    ensures bits[..Aligned(|bits|)] == bits
  {
  }

  /** As written, `encode` reports only the complete bytes: when the scan's
      bit count is not a multiple of 8, its last bits are not in the
      reported data. */
  lemma EncodeDropsPending(c: CodeLists, buf: seq<Byte>, p: Planes, w: int, h: int, f: YuvFormat)
    requires Ready(c) && 0 <= w && 0 <= h && Supported(f)
    requires PlanesReady(p, f, UnitCount(f, w, h))
    requires Room(MemSink(buf, 0), ScanBits(c, p, f, UnitCount(f, w, h)))
    ensures ReportsCompleteBytes(Encode(c, Open(buf), p, w, h, f), ScanBits(c, p, f, UnitCount(f, w, h)))
    ensures var bits := ScanBits(c, p, f, UnitCount(f, w, h));
            |bits| % 8 != 0 ==> Aligned(|bits|) < |bits|
  {
    EncodeIdeal(c, buf, p, w, h, f);
    IdealOutcome(Encode(c, Open(buf), p, w, h, f), buf, ScanBits(c, p, f, UnitCount(f, w, h)));
  }

  /** The bits of a padded healthy writer are all in its complete bytes. */
  lemma PaddedOutcome(r: Outcome, buf: seq<Byte>, bits: seq<Bit>, padded: seq<Bit>)
    requires padded == bits + Pad(bits, true)
    requires Room(MemSink(buf, 0), padded)
    requires r == Encoded(Ideal(MemSink(buf, 0), padded), Tell(Ideal(MemSink(buf, 0), padded)))
    ensures ReportsAll(r, bits)
  {
    IdealOutcome(r, buf, padded);
    CompleteIsAll(r, bits, padded);
  }

  /** Once the padding fills the last byte, the complete bytes are all. */
  lemma CompleteIsAll(r: Outcome, bits: seq<Bit>, padded: seq<Bit>)
    requires padded == bits + Pad(bits, true)
    requires ReportsCompleteBytes(r, padded)
    ensures ReportsAll(r, bits)
  {
    var p := Pad(bits, true);
    assert |padded| == |bits| + |p|;
    WholeBytes(padded);
    assert padded[..|bits|] == bits;
  }

  /** With the flush before `bitstr_tell`, the returned length covers all
      bits of the scan followed by the 1-bit padding of the last byte. */
  lemma EncodeFlushedKeepsAll(c: CodeLists, buf: seq<Byte>, p: Planes, w: int, h: int, f: YuvFormat)
    requires Ready(c) && 0 <= w && 0 <= h && Supported(f)
    requires PlanesReady(p, f, UnitCount(f, w, h))
    requires var bits := ScanBits(c, p, f, UnitCount(f, w, h));
             Room(MemSink(buf, 0), bits + Pad(bits, true))
    ensures ReportsAll(EncodeFlushed(c, Open(buf), p, w, h, f), ScanBits(c, p, f, UnitCount(f, w, h)))
  {
    var bits := ScanBits(c, p, f, UnitCount(f, w, h));
    EncodeFlushedIdeal(c, buf, p, w, h, f);
    PaddedOutcome(EncodeFlushed(c, Open(buf), p, w, h, f), buf, bits, bits + Pad(bits, true));
  }

  /** The scan determines the image: two plane sets whose scans coincide
      (up to what follows them) agree on every block the scan covers. */
  lemma ScanUnique(c: CodeLists, p1: Planes, p2: Planes, f: YuvFormat, n: nat, x: seq<Bit>, y: seq<Bit>)
    requires Ready(c) && Supported(f) && PlanesReady(p1, f, n) && PlanesReady(p2, f, n)
    requires ScanBits(c, p1, f, n) + x == ScanBits(c, p2, f, n) + y
    ensures x == y
    ensures forall r: BlockRef | r.index < Count(f, n, r.comp) ::
              Present(p1, r) && Present(p2, r) && Block(p1, r) == Block(p2, r)
  {
    RefsUnique(c, p1, p2, Start, Order(f, n), x, y);
    forall r: BlockRef | r.index < Count(f, n, r.comp)
      ensures Present(p1, r) && Present(p2, r) && Block(p1, r) == Block(p2, r)
    {
      OrderPosition(f, n, r);
    }
  }
}

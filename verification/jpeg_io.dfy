/** The JPEG interchange file `JpegIO::writeToFile` produces, as the byte
    sequence handed to `fputc` and `fwrite`: SOI, two DQT segments, SOF0,
    four DHT segments, SOS, the entropy-coded data and EOI (Annex B of
    ITU-T T.81). */
module JpegIO {
  import opened Bits
  import opened Wrappers
  import opened HuffmanTable
  import Scan
  import Quant

  // ---------------------------------------------------------------------
  // Bytes as fputc writes them
  // ---------------------------------------------------------------------

  /** The byte `fputc` writes for an `int`: its value modulo 256. */
  function Lo8(x: int): (b: Byte)
  {
    x % 256
  }

  /** `x >> 8` on an `int`: an arithmetic shift, that is floor division. */
  function Shr8(x: int): (high: int)
  {
    x / 256
  }

  /** `fputc(v >> 8); fputc(v >> 0)`: a 16-bit field, high byte first. */
  function Be16(v: int): (r: seq<Byte>)
    ensures |r| == 2
  {
    [Lo8(Shr8(v)), Lo8(v)]
  }

  /** The number a two-byte field denotes. */
  function ValueBe16(hi: Byte, lo: Byte): (v: int)
    ensures 0 <= v < 65536
  {
    hi * 256 + lo
  }

  /** A 16-bit field keeps the low 16 bits of its value. */
  lemma Be16Low16(v: int)
    ensures ValueBe16(Be16(v)[0], Be16(v)[1]) == v % 65536
  {
    var q, r := v / 65536, v % 65536;
    DivModUnique(v, 256, 256 * q + r / 256, r % 256);
    DivModUnique(256 * q + r / 256, 256, q, r / 256);
  }

  /** A field round-trips every value below 65536. */
  lemma Be16RoundTrip(v: int)
    requires 0 <= v < 65536
    ensures ValueBe16(Be16(v)[0], Be16(v)[1]) == v
  {
    Be16Low16(v);
  }

  // ---------------------------------------------------------------------
  // Segments
  // ---------------------------------------------------------------------

  /** `JpegZigzag::ZIGZAG_INDEX`: a permutation of 0..63, listing for each
      zig-zag position the natural index it takes its entry from. */
  predicate Permutation64(zigzag: seq<int>)
  {
    && |zigzag| == 64
    && (forall j | 0 <= j < 64 :: 0 <= zigzag[j] < 64)
    && (forall k | 0 <= k < 64 :: k in zigzag)
  }

  /** The parameters `writeToFile` reads: two 64-entry quantisation tables
      and four Huffman tables holding the counts and symbols `fwrite`
      copies. */
  predicate Tables(quant: seq<seq<int>>, hufAc: seq<seq<Byte>>, hufDc: seq<seq<Byte>>)
  {
    && |quant| == 2 && |quant[0]| == 64 && |quant[1]| == 64
    && |hufAc| == 2 && Listed(hufAc[0]) && Listed(hufAc[1])
    && |hufDc| == 2 && Listed(hufDc[0]) && Listed(hufDc[1])
  }

  /** A Huffman table with all the symbols its 16 counts announce. */
  predicate Listed(table: seq<Byte>)
  {
    |table| >= MaxCodeLength && MaxCodeLength + Size(table) <= |table|
  }

  const Soi: seq<Byte> := [0xFF, 0xD8]
  const Eoi: seq<Byte> := [0xFF, 0xD9]

  /** The table id and the 64 entries in zig-zag order, one byte each. */
  function DqtBody(id: int, table: seq<int>, zigzag: seq<int>): (body: seq<Byte>)
    requires |table| == 64 && Permutation64(zigzag)
    ensures |body| == 65
  {
    [Lo8(id)] + seq(64, j requires 0 <= j < 64 => Lo8(table[zigzag[j]]))
  }

  /** One pass of the DQT loop. */
  function DqtSegment(id: int, table: seq<int>, zigzag: seq<int>): (seg: seq<Byte>)
    requires |table| == 64 && Permutation64(zigzag)
  {
    [0xFF, 0xDB] + Be16(2 + 1 + 64) + DqtBody(id, table, zigzag)
  }

  /** The SOF0 bytes written before the format is examined. */
  function SofHead(w: int, h: int): (head: seq<Byte>)
    ensures |head| == 10
  {
    [0xFF, 0xC0] + Be16(2 + 1 + 2 + 2 + 1 + 3 * 3) + [8] + Be16(h) + Be16(w) + [3]
  }

  /** The sampling factors of Y: horizontal in the high nibble. */
  function LumaSampling(f: Scan.YuvFormat): (factors: Byte)
    requires Scan.Supported(f)
  {
    match f
    case Yuv444 => 0x11
    case Yuv420 => 0x22
    case Yuv422 => 0x21
  }

  /** The three component specifications: id, sampling, table selector. */
  function SofComponents(f: Scan.YuvFormat): (c: seq<Byte>)
    requires Scan.Supported(f)
    ensures |c| == 9
  {
    [0x01, LumaSampling(f), 0x00, 0x02, 0x11, 0x01, 0x03, 0x11, 0x01]
  }

  /** The length field of a DHT segment: `2 + 1 + 16` plus the counts. */
  function DhtLength(table: seq<Byte>): (len: int)
    requires |table| >= MaxCodeLength
  {
    2 + 1 + 16 + Size(table)
  }

  /** One pass of a DHT loop: `tag` is `i + 0x10` for AC, `i` for DC. */
  function DhtSegment(tag: int, table: seq<Byte>): (seg: seq<Byte>)
    requires Listed(table)
  {
    [0xFF, 0xC4] + Be16(DhtLength(table)) + [Lo8(tag)] + table[..DhtLength(table) - 3]
  }

  /** The scan header: Y uses tables 0/0, U and V tables 1/1; spectral
      selection 0..63, no successive approximation. */
  const SosSegment: seq<Byte> :=
    [0xFF, 0xDA] + Be16(2 + 1 + 2 * 3 + 3) + [3, 0x01, 0x00, 0x02, 0x11, 0x03, 0x11, 0x00, 0x3F, 0x00]

  /** What `writeToFile` hands to the stream: every byte when it returns,
      or, for an unsupported format, the bytes passed to `fputc` before the
      `throw` (the stream is then neither flushed nor closed, so they may
      stay in its buffer). */
  datatype Written = Complete(bytes: seq<Byte>) | Thrown(partial: seq<Byte>)

  /** `writeToFile(dst, buffer, dataLength, quant_tab, huf_ac_tab,
      huf_dc_tab, w, h, format)` with `ZIGZAG_INDEX` as `zigzag`. */
  function WriteToFile(buffer: seq<Byte>, dataLength: int, quant: seq<seq<int>>,
                       hufAc: seq<seq<Byte>>, hufDc: seq<seq<Byte>>,
                       w: int, h: int, format: Scan.YuvFormat, zigzag: seq<int>): (r: Written)
    requires 0 <= dataLength <= |buffer|
    requires Tables(quant, hufAc, hufDc) && Permutation64(zigzag)
    ensures r.Thrown? <==> !Scan.Supported(format)
    ensures r.Thrown? ==> |r.partial| == 2 + 2 * 69 + 10
    ensures r.Complete? ==> |r.bytes| >= 4 && r.bytes[..2] == Soi && r.bytes[|r.bytes| - 2..] == Eoi
  {
    var dqt0, dqt1 := DqtSegment(0, quant[0], zigzag), DqtSegment(1, quant[1], zigzag);
    if !Scan.Supported(format) then
      Thrown(Soi + dqt0 + dqt1 + SofHead(w, h))
    else
      var tail := buffer[..dataLength] + Eoi;
      Complete(Soi + (dqt0 + (dqt1 + (SofHead(w, h) + SofComponents(format)
        + (DhtSegment(0x10, hufAc[0]) + (DhtSegment(0x11, hufAc[1])
        + (DhtSegment(0x00, hufDc[0]) + (DhtSegment(0x01, hufDc[1])
        + (SosSegment + tail)))))))))
  }

  // ---------------------------------------------------------------------
  // Reading the segments back
  // ---------------------------------------------------------------------

  /** A marker segment: its marker code and the bytes after the length. */
  datatype Segment = Segment(marker: Byte, body: seq<Byte>)

  /** Reads `n` marker segments from the front of `bytes`, each `FF`, the
      marker code, a length that counts itself and the body, and the body;
      gives the segments and what follows them. */
  function ParseSegments(bytes: seq<Byte>, n: nat): (r: Option<(seq<Segment>, seq<Byte>)>)
    ensures r.Some? ==> |r.value.0| == n
  {
    if n == 0 then Some(([], bytes))
    else if |bytes| < 4 || bytes[0] != 0xFF then None
    else
      var len := ValueBe16(bytes[2], bytes[3]);
      if len < 2 || |bytes| < 2 + len then None
      else
        match ParseSegments(bytes[2 + len..], n - 1)
        case None => None
        case Some(p) => Some(([Segment(bytes[1], bytes[4..2 + len])] + p.0, p.1))
  }

  /** The bytes of a segment whose length field is right. */
  function SegmentBytes(s: Segment): (bytes: seq<Byte>)
  {
    [0xFF, s.marker] + Be16(|s.body| + 2) + s.body
  }

  /** Segments written one after the other in front of `tail`. */
  function SerializeOnto(segs: seq<Segment>, tail: seq<Byte>): (bytes: seq<Byte>)
  {
    if |segs| == 0 then tail else SegmentBytes(segs[0]) + SerializeOnto(segs[1..], tail)
  }

  predicate Short(segs: seq<Segment>)
  {
    forall k | 0 <= k < |segs| :: |segs[k].body| + 2 < 65536
  }

  /** Segments whose length fields are right are read back as written. */
  lemma {:induction false} ParseSerialize(segs: seq<Segment>, tail: seq<Byte>)
    requires Short(segs)
    ensures ParseSegments(SerializeOnto(segs, tail), |segs|) == Some((segs, tail))
  {
    if |segs| > 0 {
      var s, rest := segs[0], SerializeOnto(segs[1..], tail);
      var bytes := SerializeOnto(segs, tail);
      assert bytes == [0xFF, s.marker] + Be16(|s.body| + 2) + s.body + rest;
      Be16RoundTrip(|s.body| + 2);
      assert bytes[4..4 + |s.body|] == s.body;
      assert bytes[4 + |s.body|..] == rest;
      ParseSerialize(segs[1..], tail);
      assert [s] + segs[1..] == segs;
    }
  }

  /** The segments `writeToFile` means to write, in order. */
  function FileSegments(quant: seq<seq<int>>, hufAc: seq<seq<Byte>>, hufDc: seq<seq<Byte>>,
                        w: int, h: int, format: Scan.YuvFormat, zigzag: seq<int>): (segs: seq<Segment>)
    requires Tables(quant, hufAc, hufDc) && Permutation64(zigzag) && Scan.Supported(format)
    ensures |segs| == 8
  {
    [ Segment(0xDB, DqtBody(0, quant[0], zigzag)),
      Segment(0xDB, DqtBody(1, quant[1], zigzag)),
      Segment(0xC0, SofBody(w, h, format)),
      Segment(0xC4, DhtBody(0x10, hufAc[0])),
      Segment(0xC4, DhtBody(0x11, hufAc[1])),
      Segment(0xC4, DhtBody(0x00, hufDc[0])),
      Segment(0xC4, DhtBody(0x01, hufDc[1])),
      Segment(0xDA, SosBody) ]
  }

  function SofBody(w: int, h: int, format: Scan.YuvFormat): (body: seq<Byte>)
    requires Scan.Supported(format)
    ensures |body| == 15
  {
    [8] + Be16(h) + Be16(w) + [3] + SofComponents(format)
  }

  function DhtBody(tag: int, table: seq<Byte>): (body: seq<Byte>)
    requires Listed(table)
    ensures |body| == 1 + MaxCodeLength + Size(table)
  {
    [Lo8(tag)] + table[..MaxCodeLength + Size(table)]
  }

  const SosBody: seq<Byte> := [3, 0x01, 0x00, 0x02, 0x11, 0x03, 0x11, 0x00, 0x3F, 0x00]

  lemma {:induction false} TotalBound(counts: seq<Byte>)
    ensures Total(counts) <= 255 * |counts|
    decreases |counts|
  {
    if |counts| > 0 {
      TotalBound(counts[1..]);
    }
  }

  lemma DhtShort(table: seq<Byte>)
    requires Listed(table)
    ensures DhtLength(table) < 65536
  {
    TotalBound(table[..MaxCodeLength]);
  }

  lemma DqtBytes(id: int, table: seq<int>, zigzag: seq<int>)
    requires |table| == 64 && Permutation64(zigzag)
    ensures DqtSegment(id, table, zigzag) == SegmentBytes(Segment(0xDB, DqtBody(id, table, zigzag)))
  {
  }

  lemma SofBytes(w: int, h: int, format: Scan.YuvFormat)
    requires Scan.Supported(format)
    ensures SofHead(w, h) + SofComponents(format) == SegmentBytes(Segment(0xC0, SofBody(w, h, format)))
  {
  }

  lemma DhtBytes(tag: int, table: seq<Byte>)
    requires Listed(table)
    ensures DhtSegment(tag, table) == SegmentBytes(Segment(0xC4, DhtBody(tag, table)))
  {
  }

  /** After SOI the file reads back, through the length fields, as the two
      DQT, the SOF0, the four DHT and the SOS segments, followed by exactly
      `dataLength` bytes of the buffer and EOI. */
  lemma FileParses(buffer: seq<Byte>, dataLength: int, quant: seq<seq<int>>,
                   hufAc: seq<seq<Byte>>, hufDc: seq<seq<Byte>>,
                   w: int, h: int, format: Scan.YuvFormat, zigzag: seq<int>)
    requires 0 <= dataLength <= |buffer|
    requires Tables(quant, hufAc, hufDc) && Permutation64(zigzag) && Scan.Supported(format)
    ensures var r := WriteToFile(buffer, dataLength, quant, hufAc, hufDc, w, h, format, zigzag);
            && r.Complete? && r.bytes[..2] == Soi
            && ParseSegments(r.bytes[2..], 8)
               == Some((FileSegments(quant, hufAc, hufDc, w, h, format, zigzag), buffer[..dataLength] + Eoi))
  {
    var r := WriteToFile(buffer, dataLength, quant, hufAc, hufDc, w, h, format, zigzag);
    var segs := FileSegments(quant, hufAc, hufDc, w, h, format, zigzag);
    var tail := buffer[..dataLength] + Eoi;
    DhtShort(hufAc[0]);
    DhtShort(hufAc[1]);
    DhtShort(hufDc[0]);
    DhtShort(hufDc[1]);
    assert Short(segs);
    DqtBytes(0, quant[0], zigzag);
    DqtBytes(1, quant[1], zigzag);
    SofBytes(w, h, format);
    DhtBytes(0x10, hufAc[0]);
    DhtBytes(0x11, hufAc[1]);
    DhtBytes(0x00, hufDc[0]);
    DhtBytes(0x01, hufDc[1]);
    assert SosSegment == SegmentBytes(segs[7]);
    SerializeSteps(segs, tail);
    assert r.bytes == Soi + SerializeOnto(segs, tail);
    assert r.bytes[2..] == SerializeOnto(segs, tail);
    ParseSerialize(segs, tail);
  }

  /** `SerializeOnto` of eight segments, unfolded. */
  lemma SerializeSteps(segs: seq<Segment>, tail: seq<Byte>)
    requires |segs| == 8
    ensures SerializeOnto(segs, tail)
            == SegmentBytes(segs[0]) + (SegmentBytes(segs[1]) + (SegmentBytes(segs[2])
               + (SegmentBytes(segs[3]) + (SegmentBytes(segs[4]) + (SegmentBytes(segs[5])
               + (SegmentBytes(segs[6]) + (SegmentBytes(segs[7]) + tail)))))))
  {
    SerializeStep(segs, 0, tail);
    SerializeStep(segs, 1, tail);
    SerializeStep(segs, 2, tail);
    SerializeStep(segs, 3, tail);
    SerializeStep(segs, 4, tail);
    SerializeStep(segs, 5, tail);
    SerializeStep(segs, 6, tail);
    SerializeStep(segs, 7, tail);
    assert segs[0..] == segs;
    assert SerializeOnto(segs[8..], tail) == tail;
  }

  lemma SerializeStep(segs: seq<Segment>, k: nat, tail: seq<Byte>)
    requires k < |segs|
    ensures SerializeOnto(segs[k..], tail) == SegmentBytes(segs[k]) + SerializeOnto(segs[k + 1..], tail)
  {
    assert segs[k..][1..] == segs[k + 1..];
  }

  /** The file size: SOI, two 69-byte DQT segments, a 19-byte SOF0, each DHT
      segment's length plus its marker, a 14-byte SOS, the data and EOI. */
  lemma FileSize(buffer: seq<Byte>, dataLength: int, quant: seq<seq<int>>,
                 hufAc: seq<seq<Byte>>, hufDc: seq<seq<Byte>>,
                 w: int, h: int, format: Scan.YuvFormat, zigzag: seq<int>)
    requires 0 <= dataLength <= |buffer|
    requires Tables(quant, hufAc, hufDc) && Permutation64(zigzag) && Scan.Supported(format)
    ensures |WriteToFile(buffer, dataLength, quant, hufAc, hufDc, w, h, format, zigzag).bytes|
            == 2 + 2 * 69 + 19
               + (2 + DhtLength(hufAc[0])) + (2 + DhtLength(hufAc[1]))
               + (2 + DhtLength(hufDc[0])) + (2 + DhtLength(hufDc[1]))
               + 14 + dataLength + 2
  {
  }

  /** For an unsupported format the `throw` leaves behind exactly the first
      150 bytes a supported format would have written: SOI, both DQT
      segments and the first 10 bytes of SOF0. */
  lemma ThrowsAfterHead(buffer: seq<Byte>, dataLength: int, quant: seq<seq<int>>,
                        hufAc: seq<seq<Byte>>, hufDc: seq<seq<Byte>>,
                        w: int, h: int, bad: Scan.YuvFormat, good: Scan.YuvFormat, zigzag: seq<int>)
    requires 0 <= dataLength <= |buffer|
    requires Tables(quant, hufAc, hufDc) && Permutation64(zigzag)
    requires !Scan.Supported(bad) && Scan.Supported(good)
    ensures WriteToFile(buffer, dataLength, quant, hufAc, hufDc, w, h, bad, zigzag).partial
            == WriteToFile(buffer, dataLength, quant, hufAc, hufDc, w, h, good, zigzag).bytes[..150]
  {
    var dqt0, dqt1 := DqtSegment(0, quant[0], zigzag), DqtSegment(1, quant[1], zigzag);
    var sof := SofHead(w, h);
    var rest := DhtSegment(0x10, hufAc[0]) + (DhtSegment(0x11, hufAc[1])
      + (DhtSegment(0x00, hufDc[0]) + (DhtSegment(0x01, hufDc[1])
      + (SosSegment + (buffer[..dataLength] + Eoi)))));
    var full := WriteToFile(buffer, dataLength, quant, hufAc, hufDc, w, h, good, zigzag).bytes;
    assert full == Soi + (dqt0 + (dqt1 + (sof + SofComponents(good) + rest)));
    HeadPrefix(Soi, dqt0, dqt1, sof, SofComponents(good) + rest);
  }

  /** The first four parts of a right-nested concatenation. */
  lemma HeadPrefix(a: seq<Byte>, b: seq<Byte>, c: seq<Byte>, d: seq<Byte>, e: seq<Byte>)
    ensures a + (b + (c + (d + e))) == (a + b + c + d) + e
    ensures (a + (b + (c + (d + e))))[..|a| + |b| + |c| + |d|] == a + b + c + d
  {
    assert a + (b + (c + (d + e))) == (a + b + c + d) + e;
  }

  // ---------------------------------------------------------------------
  // What the segments say
  // ---------------------------------------------------------------------

  /** The frame header declares the height and the width modulo 65536,
      and so exactly whenever they fit the 16-bit fields. */
  lemma SofDimensions(w: int, h: int, format: Scan.YuvFormat)
    requires Scan.Supported(format)
    ensures var body := SofBody(w, h, format);
            && body[0] == 8 && body[5] == 3
            && ValueBe16(body[1], body[2]) == h % 65536
            && ValueBe16(body[3], body[4]) == w % 65536
  {
    Be16Low16(h);
    Be16Low16(w);
  }

  /** The luma sampling factors the frame header declares are the MCU
      shape the scan is cut into: `UnitWidth / 8` by `UnitHeight / 8`
      blocks. */
  lemma SamplingMatchesUnits(format: Scan.YuvFormat)
    requires Scan.Supported(format)
    ensures LumaSampling(format) / 16 == Scan.UnitWidth(format) / 8
    ensures LumaSampling(format) % 16 == Scan.UnitHeight(format) / 8
    ensures LumaSampling(format) / 16 * (LumaSampling(format) % 16) == Scan.Luma(format)
  {
  }

  /** The position at which a permutation holds `k`. */
  function IndexOf(zigzag: seq<int>, k: int): (j: nat)
    requires k in zigzag
    ensures j < |zigzag| && zigzag[j] == k
  {
    if zigzag[0] == k then 0 else 1 + IndexOf(zigzag[1..], k)
  }

  /** A decoder's reading of an 8-bit DQT body, back in natural order. */
  function ReadDqt(body: seq<Byte>, zigzag: seq<int>): (table: seq<int>)
    requires |body| == 65 && Permutation64(zigzag)
    ensures |table| == 64
  {
    seq(64, k requires 0 <= k < 64 => body[1 + IndexOf(zigzag, k)])
  }

  /** A table whose entries are bytes is read back exactly. */
  lemma DqtRoundTrip(id: int, table: seq<int>, zigzag: seq<int>)
    requires |table| == 64 && Permutation64(zigzag)
    requires forall k | 0 <= k < 64 :: 0 <= table[k] < 256
    ensures ReadDqt(DqtBody(id, table, zigzag), zigzag) == table
  {
    var t := ReadDqt(DqtBody(id, table, zigzag), zigzag);
    forall k | 0 <= k < 64 ensures t[k] == table[k] {
      var j := IndexOf(zigzag, k);
      assert DqtBody(id, table, zigzag)[1 + j] == Lo8(table[zigzag[j]]);
    }
  }

  /** As written, an entry above 255 loses its high bits: at quality 1
      without `force_baseline` the first luminance entry is 800, and a
      decoder reads 32. */
  lemma DqtTruncatesWideEntries(zigzag: seq<int>)
    requires Permutation64(zigzag) && zigzag[0] == 0
    ensures var table := Quant.ScaledQuality(1, true, false);
            && table[0] == 800
            && ReadDqt(DqtBody(0, table, zigzag), zigzag)[0] == 32
  {
    var table := Quant.ScaledQuality(1, true, false);
    assert Quant.ScaleFactor(Quant.ClampQuality(1)) == 5000;
    assert Quant.LuminBase[0] == 16;
    assert table[0] == Quant.ScaleEntry(16, 5000, false);
    TruncDivNonNegative(16 * 5000 + 50, 100);
    DivModUnique(16 * 5000 + 50, 100, 800, 50);
    assert IndexOf(zigzag, 0) == 0;
  }

  /** A DQT body that switches to 16-bit entries (precision 1) when some
      entry does not fit a byte, as section B.2.4.1 of ITU-T T.81 allows. */
  function DqtBodyWide(id: int, table: seq<int>, zigzag: seq<int>): (body: seq<Byte>)
    requires 0 <= id < 16 && |table| == 64 && Permutation64(zigzag)
    ensures |body| == 65 || |body| == 129
  {
    if forall k | 0 <= k < 64 :: table[k] < 256 then DqtBody(id, table, zigzag)
    else [0x10 + id] + WideEntries(table, zigzag, 64)
  }

  /** The first `n` entries in zig-zag order, two bytes each. */
  function WideEntries(table: seq<int>, zigzag: seq<int>, n: nat): (bytes: seq<Byte>)
    requires |table| == 64 && Permutation64(zigzag) && n <= 64
    ensures |bytes| == 2 * n
  {
    if n == 0 then [] else WideEntries(table, zigzag, n - 1) + Be16(table[zigzag[n - 1]])
  }

  lemma {:induction false} WideEntriesAt(table: seq<int>, zigzag: seq<int>, n: nat, j: nat)
    requires |table| == 64 && Permutation64(zigzag) && j < n <= 64
    ensures WideEntries(table, zigzag, n)[2 * j..2 * j + 2] == Be16(table[zigzag[j]])
  {
    if j < n - 1 {
      WideEntriesAt(table, zigzag, n - 1, j);
    }
  }

  /** A decoder's reading of a DQT body of either precision. */
  function ReadDqtAny(body: seq<Byte>, zigzag: seq<int>): (table: Option<seq<int>>)
    requires Permutation64(zigzag)
  {
    if |body| == 65 && body[0] / 16 == 0 then Some(ReadDqt(body, zigzag))
    else if |body| == 129 && body[0] / 16 == 1 then
      Some(seq(64, k requires 0 <= k < 64 =>
        ValueBe16(body[1 + 2 * IndexOf(zigzag, k)], body[2 + 2 * IndexOf(zigzag, k)])))
    else None
  }

  /** With 16-bit entries every table `JpegQuant` can build is read back
      exactly. */
  lemma DqtWideRoundTrip(id: int, table: seq<int>, zigzag: seq<int>)
    requires 0 <= id < 16 && |table| == 64 && Permutation64(zigzag)
    requires forall k | 0 <= k < 64 :: 0 <= table[k] < 65536
    ensures ReadDqtAny(DqtBodyWide(id, table, zigzag), zigzag) == Some(table)
  {
    if forall k | 0 <= k < 64 :: table[k] < 256 {
      DqtRoundTrip(id, table, zigzag);
      assert DqtBodyWide(id, table, zigzag)[0] == id;
    } else {
      WideBodyReads(id, table, zigzag);
    }
  }

  /** A 16-bit DQT body reads back as its table. */
  lemma WideBodyReads(id: int, table: seq<int>, zigzag: seq<int>)
    requires 0 <= id < 16 && |table| == 64 && Permutation64(zigzag)
    requires forall k | 0 <= k < 64 :: 0 <= table[k] < 65536
    ensures ReadDqtAny([0x10 + id] + WideEntries(table, zigzag, 64), zigzag) == Some(table)
  {
    var body := [0x10 + id] + WideEntries(table, zigzag, 64);
    assert body[0] / 16 == 1 && |body| == 129;
    var t := ReadDqtAny(body, zigzag).value;
    forall k | 0 <= k < 64 ensures t[k] == table[k] {
      WideEntryReads(id, table, zigzag, k);
    }
    assert t == table;
  }

  /** Entry `k` sits at its zig-zag index in a 16-bit DQT body. */
  lemma WideEntryReads(id: int, table: seq<int>, zigzag: seq<int>, k: nat)
    requires 0 <= id < 16 && |table| == 64 && Permutation64(zigzag) && k < 64
    requires 0 <= table[k] < 65536
    ensures var body := [0x10 + id] + WideEntries(table, zigzag, 64);
            var j := IndexOf(zigzag, k);
            j < 64 && ValueBe16(body[1 + 2 * j], body[2 + 2 * j]) == table[k]
  {
    var body := [0x10 + id] + WideEntries(table, zigzag, 64);
    var j := IndexOf(zigzag, k);
    WideEntriesAt(table, zigzag, 64, j);
    var e := WideEntries(table, zigzag, 64);
    assert body[1 + 2 * j] == e[2 * j] == Be16(table[k])[0];
    assert body[2 + 2 * j] == e[2 * j + 1] == Be16(table[k])[1];
    Be16RoundTrip(table[k]);
  }

  /** The quantizer's tables always fit the 16-bit form. */
  lemma QuantizerTablesFit(q: Quant.Quantizer, zigzag: seq<int>)
    requires Quant.Valid(q) && Permutation64(zigzag)
    ensures ReadDqtAny(DqtBodyWide(0, q.lumin, zigzag), zigzag) == Some(q.lumin)
    ensures ReadDqtAny(DqtBodyWide(1, q.chrom, zigzag), zigzag) == Some(q.chrom)
  {
    DqtWideRoundTrip(0, q.lumin, zigzag);
    DqtWideRoundTrip(1, q.chrom, zigzag);
  }
}

/** The two pieces of the Python notebook encoder that restate what the C++
    encoder does: `get_quant_table`, its quality scaling of the sample
    tables, and `zigzag_scan`, its definition of the zig-zag order of
    section A.3.6 of ITU-T T.81 as a sort of the block positions. */
module PythonEncoder {
  import opened Bits
  import opened Wrappers
  import Quant
  import JpegIO

  // ---------------------------------------------------------------------
  // get_quant_table
  // ---------------------------------------------------------------------

  /** `QY`, flattened row by row. Row 1, column 5 holds 48. */
  const QY: seq<int> := [
      16, 11, 10, 16, 24, 40, 51, 61,
      12, 12, 14, 19, 26, 48, 60, 55,
      14, 13, 16, 24, 40, 57, 69, 56,
      14, 17, 22, 29, 51, 87, 80, 62
    ] + [
      18, 22, 37, 56, 68, 109, 103, 77,
      24, 35, 55, 64, 81, 104, 113, 92,
      49, 64, 78, 87, 103, 121, 120, 101,
      72, 92, 95, 98, 112, 100, 103, 99
    ]

  /** `QC`, flattened row by row. */
  const QC: seq<int> := [
      17, 18, 24, 47, 99, 99, 99, 99,
      18, 21, 26, 66, 99, 99, 99, 99,
      24, 26, 56, 99, 99, 99, 99, 99,
      47, 66, 99, 99, 99, 99, 99, 99
    ] + [
      99, 99, 99, 99, 99, 99, 99, 99,
      99, 99, 99, 99, 99, 99, 99, 99,
      99, 99, 99, 99, 99, 99, 99, 99,
      99, 99, 99, 99, 99, 99, 99, 99
    ]

  /** The luminance table of the sample tables, which `QY` transcribes. */
  const QYStandard: seq<int> := Quant.LuminBase

  /** `scale` for a quality of at most 100: `5000 // q` on [1, 49] and
      `200 - 2q` otherwise, non-positive qualities included. */
  function PyScale(quality: int): (s: int)
    requires quality <= 100
    ensures s >= 0
    ensures 1 <= quality < 50 ==> s == 5000 / quality
    ensures quality <= 0 ==> s >= 200
  {
    if quality < 50 && quality >= 1 then 5000 / quality else 200 - 2 * quality
  }

  /** One entry: `(q * scale + 50) // 100` (Python's `//` floors, as
      Dafny's `/` does for a positive divisor), then the three masks in
      order: at most 0 becomes 1, above 32767 becomes 32767, above 255
      becomes 255. */
  function PyEntry(x: int, scale: int): (e: int)
    ensures 1 <= e <= 255
  {
    var v := (x * scale + 50) / 100;
    var v1 := if v <= 0 then 1 else v;
    var v2 := if v1 > 32767 then 32767 else v1;
    if v2 > 255 then 255 else v2
  }

  /** `get_quant_table(qtable, quality)`, with the table flattened. Above
      100 no branch binds `scale`, and the next line raises. */
  function GetQuantTable(qtable: seq<int>, quality: int): (r: Result<seq<int>>)
    ensures r.Failure? <==> quality > 100
    ensures r.Success? ==> |r.value| == |qtable| && forall i | 0 <= i < |qtable| :: 1 <= r.value[i] <= 255
  {
    if quality > 100 then Failure("UnboundLocalError: scale")
    else
      var scale := PyScale(quality);
      Success(seq(|qtable|, i requires 0 <= i < |qtable| => PyEntry(qtable[i], scale)))
  }

  /** At quality 50 a table of byte-sized entries comes back unchanged. */
  lemma PyQualityFifty(qtable: seq<int>)
    requires forall i | 0 <= i < |qtable| :: 1 <= qtable[i] <= 255
    ensures GetQuantTable(qtable, 50) == Success(qtable)
  {
    var t := GetQuantTable(qtable, 50).value;
    forall i | 0 <= i < |qtable| ensures t[i] == qtable[i] {
      PyEntryAtHundred(qtable[i]);
    }
    assert t == qtable;
  }

  lemma PyEntryAtHundred(x: int)
    requires 1 <= x <= 255
    ensures PyEntry(x, 100) == x
  {
    DivModUnique(x * 100 + 50, 100, x, 50);
  }

  /** For non-negative operands one entry of each encoder agrees, once the
      C++ entry is held to 255. */
  lemma EntriesAgree(b: int, s: int)
    requires b >= 1 && s >= 0
    ensures PyEntry(b, s) == Quant.ScaleEntry(b, s, true)
  {
    Bits.MulMonotone(0, s, b);
    TruncDivNonNegative(b * s + 50, 100);
  }

  /** On [1, 100], and given the sample tables, the notebook computes the
      tables the C++ encoder builds with `force_baseline` set. */
  lemma PyAgreesWithBaseline(quality: int, luminance: bool)
    requires 1 <= quality <= 100
    ensures GetQuantTable(Quant.BaseTable(luminance), quality) == Success(Quant.ScaledQuality(quality, luminance, true))
  {
    var base := Quant.BaseTable(luminance);
    var s := PyScale(quality);
    assert s == Quant.ScaleFactor(Quant.ClampQuality(quality));
    var t, c := GetQuantTable(base, quality).value, Quant.ScaledQuality(quality, luminance, true);
    forall i | 0 <= i < 64 ensures t[i] == c[i] {
      EntriesAgree(base[i], s);
    }
    assert t == c;
  }

  /** `QC` is the chrominance sample table. */
  lemma QcIsStandard()
    ensures QC == Quant.ChromBase
  {
  }

  /** `QY` departs from the luminance sample table in exactly one entry,
      row 1 column 5, and so the tables the notebook derives from it differ
      from the C++ encoder's there: at quality 50, 48 against 58. */
  lemma QyDiffersFromStandard()
    ensures |QY| == 64
    ensures QY[13] == 48 && QYStandard[13] == 58
    ensures forall i | 0 <= i < 64 && i != 13 :: QY[i] == QYStandard[i]
    ensures GetQuantTable(QY, 50).value[13] == 48 && Quant.ScaledQuality(50, true, true)[13] == 58
  {
    PyQualityFifty(QY);
    Quant.QualityFiftyIsBase(true, true);
  }

  /** With the standard table restored, the notebook and the C++ encoder
      agree on every quality in [1, 100]. */
  lemma QyStandardAgrees(quality: int)
    requires 1 <= quality <= 100
    ensures GetQuantTable(QYStandard, quality) == Success(Quant.ScaledQuality(quality, true, true))
    ensures GetQuantTable(QC, quality) == Success(Quant.ScaledQuality(quality, false, true))
  {
    PyAgreesWithBaseline(quality, true);
    PyAgreesWithBaseline(quality, false);
    QcIsStandard();
  }

  /** Quality 0 is not clamped up to 1 as in the C++ encoder: it takes the
      `200 - 2q` branch and gives a finer table than quality 1. */
  lemma PyQualityZero()
    ensures GetQuantTable(QC, 0).value[0] == 34
    ensures GetQuantTable(QC, 1).value[0] == 255
    ensures Quant.ScaledQuality(0, false, true)[0] == 255
  {
    DivModUnique(17 * 200 + 50, 100, 34, 50);
    DivModUnique(17 * 5000 + 50, 100, 850, 50);
    assert Quant.ChromBase[0] == 17;
    assert Quant.ScaleFactor(Quant.ClampQuality(0)) == 5000;
    TruncDivNonNegative(17 * 5000 + 50, 100);
  }

  // ---------------------------------------------------------------------
  // zigzag_scan
  // ---------------------------------------------------------------------

  /** A block position `(x, y)`: `x` indexes the row, `y` the column. */
  datatype Pos = Pos(row: int, col: int)

  predicate InGrid(n: int, p: Pos)
  {
    0 <= p.row < n && 0 <= p.col < n
  }

  /** The first component of the sort key: the anti-diagonal. */
  function Diag(p: Pos): (d: int)
  {
    p.row + p.col
  }

  /** The second component: `-y` on an odd diagonal, `y` on an even one. */
  function Minor(p: Pos): (key: int)
  {
    if Diag(p) % 2 == 1 then -p.col else p.col
  }

  /** The tuple order on the sort keys. */
  predicate KeyLess(a: Pos, b: Pos)
  {
    Diag(a) < Diag(b) || (Diag(a) == Diag(b) && Minor(a) < Minor(b))
  }

  predicate Sorted(ps: seq<Pos>)
  {
    forall i, j | 0 <= i < j < |ps| :: KeyLess(ps[i], ps[j])
  }

  /** The smallest and largest column on diagonal `s` of an `n` by `n` grid. */
  function Low(n: int, s: int): (low: int)
  {
    if s - n + 1 > 0 then s - n + 1 else 0
  }

  function High(n: int, s: int): (high: int)
  {
    if s < n - 1 then s else n - 1
  }

  /** The positions of diagonal `s` in key order: increasing column on an
      even diagonal, decreasing on an odd one. */
  function Diagonal(n: nat, s: nat): (d: seq<Pos>)
    requires s <= 2 * n - 2
    ensures |d| == High(n, s) - Low(n, s) + 1
  {
    var lo, hi := Low(n, s), High(n, s);
    if s % 2 == 0 then seq(hi - lo + 1, i => Pos(s - (lo + i), lo + i))
    else seq(hi - lo + 1, i => Pos(s - (hi - i), hi - i))
  }

  /** Diagonals `0 .. k - 1`, one after the other. */
  function Diagonals(n: nat, k: nat): (ps: seq<Pos>)
    requires k <= 2 * n - 1
  {
    if k == 0 then [] else Diagonals(n, k - 1) + Diagonal(n, k - 1)
  }

  /** The order `sorted` produces in `zigzag_scan` for `bsize = n`. */
  function Zigzag(n: nat): (ps: seq<Pos>)
  {
    if n == 0 then [] else Diagonals(n, 2 * n - 1)
  }

  /** `zigzag_scan(block, bsize)`: the entries in zig-zag order. */
  function ZigzagScan(block: seq<seq<int>>, n: nat): (r: seq<int>)
    requires |block| == n && forall x | 0 <= x < n :: |block[x]| == n
    ensures |r| == n * n
  {
    var z := Zigzag(n);
    ZigzagInGrid(n);
    seq(|z|, i requires 0 <= i < |z| => Entry(block, n, z[i]))
  }

  /** `block[x][y]` for a position inside the block. */
  function Entry(block: seq<seq<int>>, n: nat, p: Pos): (e: int)
    requires |block| == n && forall x | 0 <= x < n :: |block[x]| == n
    requires InGrid(n, p)
  {
    block[p.row][p.col]
  }

  /** Every entry of the block is read, at the place its position takes in
      the order. */
  lemma ScanCovers(block: seq<seq<int>>, n: nat, p: Pos) returns (i: nat)
    requires |block| == n && forall x | 0 <= x < n :: |block[x]| == n
    requires InGrid(n, p)
    ensures i < |Zigzag(n)| == |ZigzagScan(block, n)|
    ensures Zigzag(n)[i] == p && ZigzagScan(block, n)[i] == block[p.row][p.col]
  {
    ZigzagInGrid(n);
    ZigzagCovers(n, p);
    i :| 0 <= i < |Zigzag(n)| && Zigzag(n)[i] == p;
    assert ZigzagScan(block, n)[i] == Entry(block, n, p);
  }

  lemma DiagonalFacts(n: nat, s: nat, i: int)
    requires s <= 2 * n - 2 && 0 <= i < |Diagonal(n, s)|
    ensures Diag(Diagonal(n, s)[i]) == s && InGrid(n, Diagonal(n, s)[i])
  {
  }

  lemma DiagonalSorted(n: nat, s: nat)
    requires s <= 2 * n - 2
    ensures Sorted(Diagonal(n, s))
  {
  }

  lemma {:induction false} DiagonalsFacts(n: nat, k: nat)
    requires k <= 2 * n - 1
    ensures forall i | 0 <= i < |Diagonals(n, k)| :: Diag(Diagonals(n, k)[i]) < k && InGrid(n, Diagonals(n, k)[i])
    ensures Sorted(Diagonals(n, k))
  {
    if k > 0 {
      var a, d := Diagonals(n, k - 1), Diagonal(n, k - 1);
      DiagonalsFacts(n, k - 1);
      DiagonalSorted(n, k - 1);
      forall i | 0 <= i < |d| ensures Diag(d[i]) == k - 1 && InGrid(n, d[i]) {
        DiagonalFacts(n, k - 1, i);
      }
      assert Diagonals(n, k) == a + d;
    }
  }

  /** Position `p` is on its diagonal, at the index its column gives. */
  lemma OnDiagonal(n: nat, p: Pos) returns (j: nat)
    requires InGrid(n, p)
    ensures j < |Diagonal(n, Diag(p))| && Diagonal(n, Diag(p))[j] == p
  {
    var s := Diag(p);
    if s % 2 == 0 {
      j := p.col - Low(n, s);
    } else {
      j := High(n, s) - p.col;
    }
  }

  /** Every position on a diagonal below `k` is in the first `k` diagonals,
      at the returned index. */
  lemma {:induction false} DiagonalsContain(n: nat, k: nat, p: Pos) returns (i: nat)
    requires k <= 2 * n - 1 && InGrid(n, p) && Diag(p) < k
    ensures i < |Diagonals(n, k)| && Diagonals(n, k)[i] == p
  {
    var a, d := Diagonals(n, k - 1), Diagonal(n, k - 1);
    assert Diagonals(n, k) == a + d;
    if Diag(p) == k - 1 {
      var j := OnDiagonal(n, p);
      i := |a| + j;
      assert (a + d)[i] == d[j];
    } else {
      i := DiagonalsContain(n, k - 1, p);
      assert (a + d)[i] == a[i];
    }
  }

  /** The length of diagonal `s`: `s + 1` up to the main anti-diagonal,
      `2n - 1 - s` after it. */
  lemma DiagonalLength(n: nat, s: nat)
    requires s <= 2 * n - 2
    ensures s < n ==> |Diagonal(n, s)| == s + 1
    ensures s >= n ==> |Diagonal(n, s)| == 2 * n - 1 - s
  {
  }

  /** Twice the length of the first `k` diagonals, in closed form. */
  lemma {:induction false} DiagonalsLength(n: nat, k: nat)
    requires k <= 2 * n - 1
    ensures k <= n ==> 2 * |Diagonals(n, k)| == k * (k + 1)
    ensures k >= n ==> 2 * |Diagonals(n, k)| == 2 * n * n - (2 * n - 1 - k) * (2 * n - k)
  {
    if k > 0 {
      var m := k - 1;
      DiagonalsLength(n, m);
      DiagonalLength(n, m);
      var before, here := |Diagonals(n, m)|, |Diagonal(n, m)|;
      assert |Diagonals(n, k)| == before + here;
      if k <= n {
        assert 2 * before == m * (m + 1);
        StepUp(m);
        if k == n {
          Meet(n);
        }
      } else {
        var a := 2 * n - 1 - k;
        assert here == a + 1;
        assert 2 * before == 2 * n * n - (a + 1) * (a + 2);
        StepUp(a);
      }
    }
  }

  lemma StepUp(m: int)
    ensures (m + 1) * (m + 2) == m * (m + 1) + 2 * (m + 1)
  {
  }

  lemma Meet(n: int)
    ensures n * (n + 1) == 2 * n * n - (n - 1) * n
  {
  }

  /** `zigzag_scan` lists each of the `n * n` positions of the block once,
      in increasing order of the sort key: anti-diagonal first, then
      column, increasing on even and decreasing on odd diagonals. */
  lemma ZigzagGrid(n: nat)
    ensures |Zigzag(n)| == n * n
    ensures forall i | 0 <= i < |Zigzag(n)| :: InGrid(n, Zigzag(n)[i])
    ensures forall p | InGrid(n, p) :: p in Zigzag(n)
    ensures Sorted(Zigzag(n))
  {
    ZigzagInGrid(n);
    if n > 0 {
      DiagonalsFacts(n, 2 * n - 1);
    }
    forall p | InGrid(n, p) ensures p in Zigzag(n) {
      ZigzagCovers(n, p);
    }
  }

  lemma ZigzagCovers(n: nat, p: Pos)
    requires InGrid(n, p)
    ensures p in Zigzag(n)
  {
    var i := DiagonalsContain(n, 2 * n - 1, p);
  }

  /** The order has `n * n` entries, all inside the block. */
  lemma ZigzagInGrid(n: nat)
    ensures |Zigzag(n)| == n * n
    ensures forall i | 0 <= i < |Zigzag(n)| :: InGrid(n, Zigzag(n)[i])
  {
    if n > 0 {
      DiagonalsFacts(n, 2 * n - 1);
      DiagonalsLength(n, 2 * n - 1);
    }
  }

  /** A strictly sorted sequence holds no position twice. */
  lemma SortedDistinct(ps: seq<Pos>)
    requires Sorted(ps)
    ensures forall i, j | 0 <= i < j < |ps| :: ps[i] != ps[j]
  {
  }

  /** For an 8 by 8 block the order starts (0,0), (0,1), (1,0), (2,0),
      (1,1), (0,2). */
  lemma ZigzagStart()
    ensures Zigzag(8)[..6] == [Pos(0, 0), Pos(0, 1), Pos(1, 0), Pos(2, 0), Pos(1, 1), Pos(0, 2)]
  {
    var z3 := Diagonals(8, 3);
    assert Diagonal(8, 0) == [Pos(0, 0)];
    assert Diagonal(8, 1) == [Pos(0, 1), Pos(1, 0)];
    assert Diagonal(8, 2) == [Pos(2, 0), Pos(1, 1), Pos(0, 2)];
    assert z3 == [Pos(0, 0), Pos(0, 1), Pos(1, 0), Pos(2, 0), Pos(1, 1), Pos(0, 2)];
    PrefixGrows(8, 3, 15);
  }

  lemma {:induction false} PrefixGrows(n: nat, k: nat, m: nat)
    requires k <= m <= 2 * n - 1
    ensures |Diagonals(n, k)| <= |Diagonals(n, m)|
    ensures Diagonals(n, k) == Diagonals(n, m)[..|Diagonals(n, k)|]
    decreases m - k
  {
    if k < m {
      PrefixGrows(n, k, m - 1);
      assert Diagonals(n, m) == Diagonals(n, m - 1) + Diagonal(n, m - 1);
    }
  }

  /** The natural indices `8 x + y` in zig-zag order. */
  function ZigzagIndex(): (zz: seq<int>)
    ensures |zz| == 64
  {
    ZigzagGrid(8);
    seq(64, i requires 0 <= i < 64 => Zigzag(8)[i].row * 8 + Zigzag(8)[i].col)
  }

  /** The notebook's order is a permutation of 0..63, so it can serve as
      the zig-zag index table the C++ writer takes. */
  lemma ZigzagIndexPermutation()
    ensures JpegIO.Permutation64(ZigzagIndex())
  {
    var zz := ZigzagIndex();
    ZigzagGrid(8);
    forall k | 0 <= k < 64 ensures k in zz {
      var p := Pos(k / 8, k % 8);
      assert p in Zigzag(8);
      var i :| 0 <= i < 64 && Zigzag(8)[i] == p;
      assert zz[i] == k;
    }
  }
}

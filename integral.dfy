/**
 * Block fill ratios of the screen scanner (scanner/superVisor.py). A stack of
 * uint8 colour masks (one H x W mask per colour, 0 or 255 per pixel) is cut into
 * a rows x cols grid of bh x bw pixel blocks, and every block receives the
 * fraction of its pixels that are set. Both versions read each block sum out of
 * a padded integral image (a 2-D prefix sum) with four lookups: `ratio_blocks`
 * builds it with OpenCV from `mask // 255`, `ratio_blocks_v2` with two numpy
 * cumulative sums over `mask > 0`.
 */
module BlockRatios {

  /** A 2-D image as a sequence of rows. */
  type Image = seq<seq<int>>

  /** Each of the h rows holds w entries. */
  predicate Rect(m: Image, h: nat, w: nat)
  {
    |m| == h && forall y :: 0 <= y < h ==> |m[y]| == w
  }

  /** An h x w uint8 image. */
  predicate UInt8Image(m: Image, h: nat, w: nat)
  {
    Rect(m, h, w) && forall y, x :: 0 <= y < h && 0 <= x < w ==> 0 <= m[y][x] < 256
  }

  /** A num_colors x H x W stack of uint8 masks. */
  predicate Stack(masks: seq<Image>, h: nat, w: nat)
  {
    forall ci :: 0 <= ci < |masks| ==> UInt8Image(masks[ci], h, w)
  }

  // ---------------------------------------------------------------------------
  // Reference definitions: the pixels of a block and sums over rectangles
  // ---------------------------------------------------------------------------

  /** The pixels (y, x) with y1 <= y < y2 and x1 <= x < x2 whose value is at least t. */
  function Lit(m: Image, t: int, y1: int, y2: int, x1: int, x2: int): set<(int, int)>
  {
    set y, x | y1 <= y < y2 && x1 <= x < x2 && 0 <= y < |m| && 0 <= x < |m[y]| && m[y][x] >= t :: (y, x)
  }

  /** The 0/1 image of the pixels whose value is at least t. */
  function Threshold(m: Image, t: int): (b: Image)
    ensures |b| == |m| && forall y :: 0 <= y < |m| ==> |b[y]| == |m[y]|
  {
    seq(|m|, y requires 0 <= y < |m| => seq(|m[y]|, x requires 0 <= x < |m[y]| => if m[y][x] >= t then 1 else 0))
  }

  /** `(masks > 0)` in `ratio_blocks_v2`: a pixel counts when it is nonzero. */
  function Binary(m: Image): Image
  {
    Threshold(m, 1)
  }

  /** `mask // 255` in `ratio_blocks` (floor division; pixels are never negative). */
  function Div255(m: Image): (b: Image)
    ensures |b| == |m| && forall y :: 0 <= y < |m| ==> |b[y]| == |m[y]|
  {
    seq(|m|, y requires 0 <= y < |m| => seq(|m[y]|, x requires 0 <= x < |m[y]| => m[y][x] / 255))
  }

  /** The sum of row[x1], ..., row[x2 - 1]. */
  function RowSum(row: seq<int>, x1: nat, x2: nat): int
    requires x1 <= x2 <= |row|
  {
    if x1 == x2 then 0 else RowSum(row, x1, x2 - 1) + row[x2 - 1]
  }

  /** The sum of b over rows y1 .. y2 - 1 and columns x1 .. x2 - 1. */
  function RectSum(b: Image, w: nat, y1: nat, y2: nat, x1: nat, x2: nat): int
    requires Rect(b, |b|, w) && y1 <= y2 <= |b| && x1 <= x2 <= w
    decreases y2
  {
    if y1 == y2 then 0 else RectSum(b, w, y1, y2 - 1, x1, x2) + RowSum(b[y2 - 1], x1, x2)
  }

  /**
   * The padded integral image as OpenCV's `integral` defines it: entry [y][x]
   * is the sum of b over the rows above y and the columns left of x.
   */
  function PrefixTable(b: Image, w: nat): (t: Image)
    requires Rect(b, |b|, w)
    ensures Rect(t, |b| + 1, w + 1)
  {
    seq(|b| + 1, y requires 0 <= y <= |b| => seq(w + 1, x requires 0 <= x <= w => RectSum(b, w, 0, y, 0, x)))
  }

  // ---------------------------------------------------------------------------
  // The integral image of ratio_blocks_v2, built from two cumulative sums
  // ---------------------------------------------------------------------------

  /** numpy's `cumsum` of a 1-D sequence: running totals, the first one acc + s[0]. */
  function Scan(acc: int, s: seq<int>): (r: seq<int>)
    ensures |r| == |s|
    decreases |s|
  {
    if s == [] then [] else [acc + s[0]] + Scan(acc + s[0], s[1..])
  }

  /** Column x of b. */
  function Column(b: Image, w: nat, x: nat): (col: seq<int>)
    requires Rect(b, |b|, w) && x < w
    ensures |col| == |b|
  {
    seq(|b|, y requires 0 <= y < |b| => b[y][x])
  }

  /** `cumsum(axis=1)` of the stack: running totals down every column. */
  function CumDown(b: Image, w: nat): (c: Image)
    requires Rect(b, |b|, w)
    ensures Rect(c, |b|, w)
  {
    seq(|b|, y requires 0 <= y < |b| => seq(w, x requires 0 <= x < w => Scan(0, Column(b, w, x))[y]))
  }

  /** `cumsum(axis=2)` of the stack: running totals along every row. */
  function CumRight(c: Image, w: nat): (d: Image)
    requires Rect(c, |c|, w)
    ensures Rect(d, |c|, w)
  {
    seq(|c|, y requires 0 <= y < |c| => Scan(0, c[y]))
  }

  /** `integral[:, 1:, 1:] = d` on a zero (H + 1) x (W + 1) array. */
  function Pad(d: Image, w: nat): (t: Image)
    requires Rect(d, |d|, w)
    ensures Rect(t, |d| + 1, w + 1)
  {
    [seq(w + 1, _ => 0)] + seq(|d|, y requires 0 <= y < |d| => [0] + d[y])
  }

  /** The integral image `ratio_blocks_v2` builds for one colour. */
  function IntegralV2(m: Image, w: nat): (t: Image)
    requires Rect(m, |m|, w)
    ensures Rect(t, |m| + 1, w + 1)
  {
    Pad(CumRight(CumDown(Binary(m), w), w), w)
  }

  /** The four-lookup inclusion-exclusion sum of a block of an integral image. */
  function BlockSum(t: Image, y1: nat, y2: nat, x1: nat, x2: nat): int
    requires y2 < |t| && y1 < |t| && x1 < |t[y1]| && x2 < |t[y1]| && x1 < |t[y2]| && x2 < |t[y2]|
  {
    t[y2][x2] - t[y1][x2] - t[y2][x1] + t[y1][x1]
  }

  // ---------------------------------------------------------------------------
  // Lemmas on sums
  // ---------------------------------------------------------------------------

  lemma {:induction false} RowSumSplit(row: seq<int>, x1: nat, x: nat, x2: nat)
    requires x1 <= x <= x2 <= |row|
    ensures RowSum(row, x1, x2) == RowSum(row, x1, x) + RowSum(row, x, x2)
    decreases x2
  {
    if x2 > x {
      RowSumSplit(row, x1, x, x2 - 1);
    }
  }

  /** Summing from the front: the first entry plus the sum of the rest. */
  lemma {:induction false} RowSumCons(s: seq<int>, k: nat)
    requires k < |s|
    ensures RowSum(s, 0, k + 1) == s[0] + RowSum(s[1..], 0, k)
    decreases k
  {
    if k > 0 {
      RowSumCons(s, k - 1);
    }
  }

  lemma {:induction false} RectSplitX(b: Image, w: nat, y1: nat, y2: nat, x1: nat, x: nat, x2: nat)
    requires Rect(b, |b|, w) && y1 <= y2 <= |b| && x1 <= x <= x2 <= w
    ensures RectSum(b, w, y1, y2, x1, x2) == RectSum(b, w, y1, y2, x1, x) + RectSum(b, w, y1, y2, x, x2)
    decreases y2
  {
    if y1 < y2 {
      RectSplitX(b, w, y1, y2 - 1, x1, x, x2);
      RowSumSplit(b[y2 - 1], x1, x, x2);
    }
  }

  lemma {:induction false} RectSplitY(b: Image, w: nat, y1: nat, y: nat, y2: nat, x1: nat, x2: nat)
    requires Rect(b, |b|, w) && y1 <= y <= y2 <= |b| && x1 <= x2 <= w
    ensures RectSum(b, w, y1, y2, x1, x2) == RectSum(b, w, y1, y, x1, x2) + RectSum(b, w, y, y2, x1, x2)
    decreases y2
  {
    if y < y2 {
      RectSplitY(b, w, y1, y, y2 - 1, x1, x2);
    }
  }

  /** A rectangle without columns sums to zero. */
  lemma {:induction false} RectNoColumns(b: Image, w: nat, y: nat, x: nat)
    requires Rect(b, |b|, w) && y <= |b| && x <= w
    ensures RectSum(b, w, 0, y, x, x) == 0
    decreases y
  {
    if y > 0 {
      RectNoColumns(b, w, y - 1, x);
    }
  }

  /** A running total is the initial value plus the sum of the prefix. */
  lemma {:induction false} ScanSum(acc: int, s: seq<int>, k: nat)
    requires k < |s|
    ensures Scan(acc, s)[k] == acc + RowSum(s, 0, k + 1)
    decreases |s|
  {
    RowSumCons(s, k);
    if k > 0 {
      ScanSum(acc + s[0], s[1..], k - 1);
    }
  }

  /** Summing the first y entries of column x is summing the one-column rectangle. */
  lemma {:induction false} ColumnSum(b: Image, w: nat, x: nat, y: nat)
    requires Rect(b, |b|, w) && x < w && y <= |b|
    ensures RowSum(Column(b, w, x), 0, y) == RectSum(b, w, 0, y, x, x + 1)
    decreases y
  {
    if y > 0 {
      ColumnSum(b, w, x, y - 1);
      assert RowSum(b[y - 1], x, x + 1) == b[y - 1][x];
      assert Column(b, w, x)[y - 1] == b[y - 1][x];
    }
  }

  /** Running totals along a row of the column totals give the 2-D prefix sum. */
  lemma {:induction false} CumDownRow(b: Image, w: nat, y: nat, x: nat)
    requires Rect(b, |b|, w) && y < |b| && x <= w
    ensures RowSum(CumDown(b, w)[y], 0, x) == RectSum(b, w, 0, y + 1, 0, x)
    decreases x
  {
    if x == 0 {
      RectNoColumns(b, w, y + 1, 0);
    } else {
      CumDownRow(b, w, y, x - 1);
      ScanSum(0, Column(b, w, x - 1), y);
      ColumnSum(b, w, x - 1, y + 1);
      RectSplitX(b, w, 0, y + 1, 0, x - 1, x);
    }
  }

  /**
   * `integral[y][x]` of ratio_blocks_v2 is the sum of the binary image over the
   * rows above y and the columns left of x, i.e. the number of nonzero pixels there;
   * row 0 and column 0 are zero.
   */
  lemma IntegralV2Entry(m: Image, w: nat, y: nat, x: nat)
    requires Rect(m, |m|, w) && y <= |m| && x <= w
    ensures IntegralV2(m, w)[y][x] == RectSum(Binary(m), w, 0, y, 0, x) == |Lit(m, 1, 0, y, 0, x)|
    ensures y == 0 || x == 0 ==> IntegralV2(m, w)[y][x] == 0
  {
    var b := Binary(m);
    if y > 0 && x > 0 {
      ScanSum(0, CumDown(b, w)[y - 1], x - 1);
      CumDownRow(b, w, y - 1, x);
    } else if y > 0 {
      RectNoColumns(b, w, y, 0);
    }
    LitCount(m, w, 1, 0, y, 0, x);
  }

  /** The whole cumsum-built integral image equals the padded prefix table. */
  lemma IntegralV2IsPrefix(m: Image, w: nat)
    requires Rect(m, |m|, w)
    ensures IntegralV2(m, w) == PrefixTable(Binary(m), w)
  {
    var t, p := IntegralV2(m, w), PrefixTable(Binary(m), w);
    forall y | 0 <= y <= |m|
      ensures t[y] == p[y]
    {
      forall x | 0 <= x <= w
        ensures t[y][x] == p[y][x]
      {
        IntegralV2Entry(m, w, y, x);
      }
    }
  }

  /** The four lookups into a prefix table give the sum over the block. */
  lemma InclusionExclusion(b: Image, w: nat, y1: nat, y2: nat, x1: nat, x2: nat)
    requires Rect(b, |b|, w) && y1 <= y2 <= |b| && x1 <= x2 <= w
    ensures BlockSum(PrefixTable(b, w), y1, y2, x1, x2) == RectSum(b, w, y1, y2, x1, x2)
  {
    RectSplitY(b, w, 0, y1, y2, 0, x2);
    RectSplitY(b, w, 0, y1, y2, 0, x1);
    RectSplitX(b, w, y1, y2, 0, x1, x2);
  }

  // ---------------------------------------------------------------------------
  // Counting the lit pixels
  // ---------------------------------------------------------------------------

  lemma {:induction false} RowLitCount(m: Image, w: nat, t: int, y: nat, x1: nat, x2: nat)
    requires Rect(m, |m|, w) && y < |m| && x1 <= x2 <= w
    ensures |Lit(m, t, y, y + 1, x1, x2)| == RowSum(Threshold(m, t)[y], x1, x2)
    decreases x2
  {
    if x1 == x2 {
      assert Lit(m, t, y, y + 1, x1, x2) == {};
    } else {
      RowLitCount(m, w, t, y, x1, x2 - 1);
      var A := Lit(m, t, y, y + 1, x1, x2 - 1);
      if m[y][x2 - 1] >= t {
        assert Lit(m, t, y, y + 1, x1, x2) == A + {(y, x2 - 1)};
        assert (y, x2 - 1) !in A;
      } else {
        assert Lit(m, t, y, y + 1, x1, x2) == A;
      }
    }
  }

  /** The sum of the thresholded image over a rectangle counts its pixels at or above t. */
  lemma {:induction false} LitCount(m: Image, w: nat, t: int, y1: nat, y2: nat, x1: nat, x2: nat)
    requires Rect(m, |m|, w) && y1 <= y2 <= |m| && x1 <= x2 <= w
    ensures |Lit(m, t, y1, y2, x1, x2)| == RectSum(Threshold(m, t), w, y1, y2, x1, x2)
    decreases y2
  {
    if y1 == y2 {
      assert Lit(m, t, y1, y2, x1, x2) == {};
    } else {
      LitCount(m, w, t, y1, y2 - 1, x1, x2);
      RowLitCount(m, w, t, y2 - 1, x1, x2);
      LitLastRow(m, t, y1, y2 - 1, x1, x2);
    }
  }

  /** The pixels of rows y1 .. y are those of rows y1 .. y - 1 and those of row y, which are disjoint. */
  lemma LitLastRow(m: Image, t: int, y1: int, y: int, x1: int, x2: int)
    requires y1 <= y
    ensures |Lit(m, t, y1, y + 1, x1, x2)| == |Lit(m, t, y1, y, x1, x2)| + |Lit(m, t, y, y + 1, x1, x2)|
  {
    var A, B := Lit(m, t, y1, y, x1, x2), Lit(m, t, y, y + 1, x1, x2);
    assert Lit(m, t, y1, y + 1, x1, x2) == A + B;
    assert A * B == {};
  }

  /** A block of bh x bw pixels has at most bh * bw lit pixels. */
  lemma {:induction false} LitBound(m: Image, t: int, y1: int, n: nat, x1: int, bw: nat)
    ensures |Lit(m, t, y1, y1 + n, x1, x1 + bw)| <= n * bw
    decreases n
  {
    if n > 0 {
      var k := n - 1;
      LitBound(m, t, y1, k, x1, bw);
      RowLitBound(m, t, y1 + k, x1, bw);
      LitLastRow(m, t, y1, y1 + k, x1, x1 + bw);
      MulSucc(k, bw);
    }
  }

  lemma MulPos(a: nat, b: nat)
    requires 0 < a && 0 < b
    ensures a * b > 0
  {
  }

  lemma MulSucc(k: nat, b: nat)
    ensures (k + 1) * b == k * b + b
  {
  }

  lemma {:induction false} RowLitBound(m: Image, t: int, y: int, x1: int, bw: nat)
    ensures |Lit(m, t, y, y + 1, x1, x1 + bw)| <= bw
    decreases bw
  {
    if bw == 0 {
      assert Lit(m, t, y, y + 1, x1, x1 + bw) == {};
    } else {
      RowLitBound(m, t, y, x1, bw - 1);
      var A := Lit(m, t, y, y + 1, x1, x1 + bw - 1);
      var x := x1 + bw - 1;
      if 0 <= y < |m| && 0 <= x < |m[y]| && m[y][x] >= t {
        assert Lit(m, t, y, y + 1, x1, x1 + bw) == A + {(y, x)};
      } else {
        assert Lit(m, t, y, y + 1, x1, x1 + bw) == A;
      }
    }
  }

  // ---------------------------------------------------------------------------
  // Blocks and ratios
  // ---------------------------------------------------------------------------

  /** Pixel (y, x) lies in block (r, c) of the bh x bw grid. */
  predicate InBlock(bh: nat, bw: nat, r: int, c: int, y: int, x: int)
  {
    r * bh <= y < r * bh + bh && c * bw <= x < c * bw + bw
  }

  /** Block (r, c) starts at row r * bh and column c * bw; the loops visit exactly these. */
  lemma BlockStart(r: nat, rows: nat, bh: nat, h: nat)
    requires r < rows && rows * bh <= h
    ensures r * bh + bh <= h
  {
    assert r * bh + bh == (r + 1) * bh <= rows * bh;
  }

  /**
   * The blocks tile the covered area: every pixel of the rows * bh x cols * bw
   * area lies in exactly one block, block (y / bh, x / bw).
   */
  lemma BlocksTile(bh: nat, bw: nat, rows: nat, cols: nat, y: nat, x: nat)
    requires 0 < bh && 0 < bw && y < rows * bh && x < cols * bw
    ensures y / bh < rows && x / bw < cols && InBlock(bh, bw, y / bh, x / bw, y, x)
    ensures forall r, c :: InBlock(bh, bw, r, c, y, x) ==> r == y / bh && c == x / bw
  {
    DivBlock(bh, rows, y);
    DivBlock(bw, cols, x);
    forall r, c | InBlock(bh, bw, r, c, y, x)
      ensures r == y / bh && c == x / bw
    {
      BlockUnique(bh, r, y);
      BlockUnique(bw, c, x);
    }
  }

  lemma DivBlock(b: nat, n: nat, y: nat)
    requires 0 < b && y < n * b
    ensures y / b < n && (y / b) * b <= y < (y / b) * b + b
  {
    var q := y / b;
    assert y == q * b + y % b;
  }

  lemma BlockUnique(b: nat, r: int, y: nat)
    requires 0 < b && r * b <= y < r * b + b
    ensures r == y / b
  {
    var q := y / b;
    assert y == q * b + y % b;
    MulBounds(r - q, b);
    assert (r - q) * b == r * b - q * b;
  }

  lemma MulBounds(d: int, b: nat)
    requires 0 < b
    ensures d >= 1 ==> d * b >= b
    ensures d <= -1 ==> d * b + b <= 0
  {
  }

  /** The fraction of the bh x bw pixels of block (r, c) of m whose value is at least t. */
  function FillRatio(m: Image, t: int, bh: nat, bw: nat, r: int, c: int): real
    requires 0 < bh && 0 < bw
  {
    |Lit(m, t, r * bh, r * bh + bh, c * bw, c * bw + bw)| as real / (bh * bw) as real
  }

  /** Every ratio lies in [0, 1]: 0 exactly when no pixel of the block is lit, 1 when all are. */
  lemma FillRatioBounds(m: Image, t: int, bh: nat, bw: nat, r: int, c: int)
    requires 0 < bh && 0 < bw
    ensures 0.0 <= FillRatio(m, t, bh, bw, r, c) <= 1.0
    ensures FillRatio(m, t, bh, bw, r, c) == 0.0 <==> Lit(m, t, r * bh, r * bh + bh, c * bw, c * bw + bw) == {}
    ensures FillRatio(m, t, bh, bw, r, c) == 1.0 <==> |Lit(m, t, r * bh, r * bh + bh, c * bw, c * bw + bw)| == bh * bw
  {
    var n := |Lit(m, t, r * bh, r * bh + bh, c * bw, c * bw + bw)|;
    LitBound(m, t, r * bh, bh, c * bw, bw);
    var total := (bh * bw) as real;
    assert total > 0.0;
    assert n as real <= total;
  }

  /**
   * On a 0/255 mask `// 255` and `> 0` select the same pixels, so `ratio_blocks`
   * and `ratio_blocks_v2` give every block the same count.
   */
  lemma MasksAgree(m: Image, y1: int, y2: int, x1: int, x2: int)
    requires forall y, x :: 0 <= y < |m| && 0 <= x < |m[y]| ==> m[y][x] == 0 || m[y][x] == 255
    ensures Lit(m, 1, y1, y2, x1, x2) == Lit(m, 255, y1, y2, x1, x2)
  {
  }

  /** On other uint8 values they differ: a pixel of 128 counts for `> 0` but not for `// 255`. */
  lemma MasksDiffer()
    ensures Lit([[128]], 1, 0, 1, 0, 1) == {(0, 0)} && Lit([[128]], 255, 0, 1, 0, 1) == {}
  {
    assert (0, 0) in Lit([[128]], 1, 0, 1, 0, 1);
  }

  /** `mask // 255` of a uint8 mask is the 0/1 image of its 255 pixels. */
  lemma Div255Threshold(m: Image, w: nat)
    requires UInt8Image(m, |m|, w)
    ensures Div255(m) == Threshold(m, 255)
  {
    var d, t := Div255(m), Threshold(m, 255);
    forall y | 0 <= y < |m|
      ensures d[y] == t[y]
    {
      assert |d[y]| == |t[y]|;
      forall x | 0 <= x < w
        ensures d[y][x] == t[y][x]
      {
      }
    }
  }

  // ---------------------------------------------------------------------------
  // The block loops
  // ---------------------------------------------------------------------------

  /** The block sum read from a mask's integral image counts the block's pixels at or above t. */
  lemma CountFromTable(m: Image, w: nat, t: int, y1: nat, y2: nat, x1: nat, x2: nat)
    requires Rect(m, |m|, w) && y1 <= y2 <= |m| && x1 <= x2 <= w
    ensures BlockSum(PrefixTable(Threshold(m, t), w), y1, y2, x1, x2) == |Lit(m, t, y1, y2, x1, x2)|
  {
    InclusionExclusion(Threshold(m, t), w, y1, y2, x1, x2);
    LitCount(m, w, t, y1, y2, x1, x2);
  }

  /** The ratio ratio_blocks_v2 computes for block (r, c) of one colour is its fill ratio of nonzero pixels. */
  lemma RatioV2(m: Image, w: nat, bh: nat, bw: nat, r: nat, c: nat, y1: nat, x1: nat)
    requires Rect(m, |m|, w) && 0 < bh && 0 < bw && y1 == r * bh && x1 == c * bw && y1 + bh <= |m| && x1 + bw <= w
    ensures BlockSum(IntegralV2(m, w), y1, y1 + bh, x1, x1 + bw) as real / (bh * bw) as real == FillRatio(m, 1, bh, bw, r, c)
  {
    IntegralV2IsPrefix(m, w);
    CountFromTable(m, w, 1, y1, y1 + bh, x1, x1 + bw);
  }

  /** The ratio ratio_blocks computes for block (r, c) of one colour is its fill ratio of 255 pixels. */
  lemma RatioV1(m: Image, w: nat, bh: nat, bw: nat, r: nat, c: nat, y1: nat, x1: nat)
    requires UInt8Image(m, |m|, w)
    requires 0 < bh && 0 < bw && y1 == r * bh && x1 == c * bw && y1 + bh <= |m| && x1 + bw <= w
    ensures BlockSum(PrefixTable(Div255(m), w), y1, y1 + bh, x1, x1 + bw) as real / (bh * bw) as real == FillRatio(m, 255, bh, bw, r, c)
  {
    Div255Threshold(m, w);
    CountFromTable(m, w, 255, y1, y1 + bh, x1, x1 + bw);
  }

  /**
   * `ratios[:, r, c] = ...` of ratio_blocks_v2: the ratio of block (r, c) for
   * every colour, from the four lookups into that colour's integral image.
   */
  method StoreBlock(ratios: array3<real>, integral: seq<Image>, masks: seq<Image>, h: nat, w: nat,
                    bh: nat, bw: nat, r: nat, c: nat)
    requires Stack(masks, h, w) && 0 < bh && 0 < bw && r * bh + bh <= h && c * bw + bw <= w
    requires |integral| == |masks| && forall ci :: 0 <= ci < |masks| ==> integral[ci] == IntegralV2(masks[ci], w)
    requires ratios.Length0 == |masks| && r < ratios.Length1 && c < ratios.Length2
    modifies ratios
    ensures forall ci :: 0 <= ci < |masks| ==> ratios[ci, r, c] == FillRatio(masks[ci], 1, bh, bw, r, c)
    ensures forall ci, r', c' ::
      (0 <= ci < ratios.Length0 && 0 <= r' < ratios.Length1 && 0 <= c' < ratios.Length2 && (r' != r || c' != c)) ==>
        ratios[ci, r', c'] == old(ratios[ci, r', c'])
  {
    var y1 := r * bh;
    var y2 := y1 + bh;
    var x1 := c * bw;
    var x2 := x1 + bw;
    var total := bh * bw;
    MulPos(bh, bw);
    for ci := 0 to |masks|
      invariant forall ci' :: 0 <= ci' < ci ==> ratios[ci', r, c] == FillRatio(masks[ci'], 1, bh, bw, r, c)
      invariant forall ci, r', c' ::
        (0 <= ci < ratios.Length0 && 0 <= r' < ratios.Length1 && 0 <= c' < ratios.Length2 && (r' != r || c' != c)) ==>
          ratios[ci, r', c'] == old(ratios[ci, r', c'])
    {
      RatioV2(masks[ci], w, bh, bw, r, c, y1, x1);
      ratios[ci, r, c] := BlockSum(integral[ci], y1, y2, x1, x2) as real / total as real;
    }
  }

  /** The inner `for c in range(cols)` loop of ratio_blocks_v2 for block row r. */
  method StoreRow(ratios: array3<real>, integral: seq<Image>, masks: seq<Image>, h: nat, w: nat,
                  bh: nat, bw: nat, r: nat, cols: nat)
    requires Stack(masks, h, w) && 0 < bh && 0 < bw && r * bh + bh <= h && cols * bw <= w
    requires |integral| == |masks| && forall ci :: 0 <= ci < |masks| ==> integral[ci] == IntegralV2(masks[ci], w)
    requires ratios.Length0 == |masks| && r < ratios.Length1 && ratios.Length2 == cols
    modifies ratios
    ensures forall ci, c :: 0 <= ci < |masks| && 0 <= c < cols ==> ratios[ci, r, c] == FillRatio(masks[ci], 1, bh, bw, r, c)
    ensures forall ci, r', c' ::
      (0 <= ci < ratios.Length0 && 0 <= r' < ratios.Length1 && 0 <= c' < cols && r' != r) ==>
        ratios[ci, r', c'] == old(ratios[ci, r', c'])
  {
    for c := 0 to cols
      invariant forall ci, c' :: 0 <= ci < |masks| && 0 <= c' < c ==> ratios[ci, r, c'] == FillRatio(masks[ci], 1, bh, bw, r, c')
      invariant forall ci, r', c' ::
        (0 <= ci < ratios.Length0 && 0 <= r' < ratios.Length1 && 0 <= c' < cols && r' != r) ==>
          ratios[ci, r', c'] == old(ratios[ci, r', c'])
    {
      BlockStart(c, cols, bw, w);
      StoreBlock(ratios, integral, masks, h, w, bh, bw, r, c);
    }
  }

  /**
   * `ratio_blocks_v2`: every entry [ci, r, c] of the result is the fraction of
   * nonzero pixels of mask ci in block (r, c).
   */
  method RatioBlocksV2(masks: seq<Image>, h: nat, w: nat, bh: nat, bw: nat, rows: nat, cols: nat)
    returns (ratios: array3<real>)
    requires Stack(masks, h, w) && 0 < bh && 0 < bw && rows * bh <= h && cols * bw <= w
    ensures fresh(ratios) && ratios.Length0 == |masks| && ratios.Length1 == rows && ratios.Length2 == cols
    ensures forall ci, r, c :: 0 <= ci < |masks| && 0 <= r < rows && 0 <= c < cols ==>
      ratios[ci, r, c] == FillRatio(masks[ci], 1, bh, bw, r, c)
  {
    var integral := seq(|masks|, ci requires 0 <= ci < |masks| => IntegralV2(masks[ci], w));
    ratios := new real[|masks|, rows, cols]((_, _, _) => 0.0);
    for r := 0 to rows
      invariant forall ci, r', c :: 0 <= ci < |masks| && 0 <= r' < r && 0 <= c < cols ==>
        ratios[ci, r', c] == FillRatio(masks[ci], 1, bh, bw, r', c)
    {
      BlockStart(r, rows, bh, h);
      StoreRow(ratios, integral, masks, h, w, bh, bw, r, cols);
    }
  }

  /**
   * The body of `ratio_blocks` for one colour: OpenCV's integral image of
   * `mask // 255`, then one ratio per block.
   */
  method RatioBlocksColour(results: array3<real>, masks: seq<Image>, h: nat, w: nat,
                           bh: nat, bw: nat, ci: nat)
    requires Stack(masks, h, w) && 0 < bh && 0 < bw && ci < |masks|
    requires results.Length0 == |masks| && results.Length1 * bh <= h && results.Length2 * bw <= w
    modifies results
    ensures forall r, c :: 0 <= r < results.Length1 && 0 <= c < results.Length2 ==>
      results[ci, r, c] == FillRatio(masks[ci], 255, bh, bw, r, c)
    ensures forall ci', r, c ::
      (0 <= ci' < results.Length0 && 0 <= r < results.Length1 && 0 <= c < results.Length2 && ci' != ci) ==>
        results[ci', r, c] == old(results[ci', r, c])
  {
    var rows := results.Length1;
    var mask := Div255(masks[ci]);
    var integral := PrefixTable(mask, w);
    for r := 0 to rows
      invariant forall r', c :: 0 <= r' < r && 0 <= c < results.Length2 ==> results[ci, r', c] == FillRatio(masks[ci], 255, bh, bw, r', c)
      invariant forall ci', r, c ::
        (0 <= ci' < results.Length0 && 0 <= r < rows && 0 <= c < results.Length2 && ci' != ci) ==>
          results[ci', r, c] == old(results[ci', r, c])
    {
      BlockStart(r, rows, bh, h);
      ColourRow(results, integral, masks, h, w, bh, bw, ci, r);
    }
  }

  /** The inner `for c in range(cols)` loop of ratio_blocks for colour ci and block row r. */
  method ColourRow(results: array3<real>, integral: Image, masks: seq<Image>, h: nat, w: nat,
                   bh: nat, bw: nat, ci: nat, r: nat)
    requires Stack(masks, h, w) && 0 < bh && 0 < bw && ci < |masks| && integral == PrefixTable(Div255(masks[ci]), w)
    requires results.Length0 == |masks| && r < results.Length1 && r * bh + bh <= h && results.Length2 * bw <= w
    modifies results
    ensures forall c :: 0 <= c < results.Length2 ==> results[ci, r, c] == FillRatio(masks[ci], 255, bh, bw, r, c)
    ensures forall ci', r', c ::
      (0 <= ci' < results.Length0 && 0 <= r' < results.Length1 && 0 <= c < results.Length2 && (ci' != ci || r' != r)) ==>
        results[ci', r', c] == old(results[ci', r', c])
  {
    var cols := results.Length2;
    var total := bh * bw;
    MulPos(bh, bw);
    for c := 0 to cols
      invariant forall c' :: 0 <= c' < c ==> results[ci, r, c'] == FillRatio(masks[ci], 255, bh, bw, r, c')
      invariant forall ci', r', c ::
        (0 <= ci' < results.Length0 && 0 <= r' < results.Length1 && 0 <= c < cols && (ci' != ci || r' != r)) ==>
          results[ci', r', c] == old(results[ci', r', c])
    {
      BlockStart(c, cols, bw, w);
      var y1 := r * bh;
      var y2 := y1 + bh;
      var x1 := c * bw;
      var x2 := x1 + bw;
      RatioV1(masks[ci], w, bh, bw, r, c, y1, x1);
      results[ci, r, c] := BlockSum(integral, y1, y2, x1, x2) as real / total as real;
    }
  }

  /**
   * `ratio_blocks`: every entry [ci, r, c] of the result is the fraction of
   * 255-valued pixels of mask ci in block (r, c); on 0/255 masks that is the
   * ratio `ratio_blocks_v2` computes (MasksAgree).
   */
  method RatioBlocks(masks: seq<Image>, h: nat, w: nat, bh: nat, bw: nat, rows: nat, cols: nat)
    returns (results: array3<real>)
    requires Stack(masks, h, w) && 0 < bh && 0 < bw && rows * bh <= h && cols * bw <= w
    ensures fresh(results) && results.Length0 == |masks| && results.Length1 == rows && results.Length2 == cols
    ensures forall ci, r, c :: 0 <= ci < |masks| && 0 <= r < rows && 0 <= c < cols ==>
      results[ci, r, c] == FillRatio(masks[ci], 255, bh, bw, r, c)
  {
    results := new real[|masks|, rows, cols]((_, _, _) => 0.0);
    for ci := 0 to |masks|
      invariant forall ci', r, c :: 0 <= ci' < ci && 0 <= r < rows && 0 <= c < cols ==>
        results[ci', r, c] == FillRatio(masks[ci'], 255, bh, bw, r, c)
    {
      RatioBlocksColour(results, masks, h, w, bh, bw, ci);
    }
  }

  // ---------------------------------------------------------------------------
  // press_random_wasd
  // ---------------------------------------------------------------------------

  const KEYS: seq<string> := ["w", "a", "s", "d"]

  /** `[k for k in keys if k != last_key]`. */
  function Others(keys: seq<string>, last: string): (r: seq<string>)
    ensures forall k :: k in r <==> k in keys && k != last
    ensures |r| <= |keys|
  {
    if keys == [] then []
    else (if keys[0] != last then [keys[0]] else []) + Others(keys[1..], last)
  }

  /**
   * `press_random_wasd`: `random.choice` is the index `pick` into the choices.
   * The key is one of w/a/s/d and differs from the last one.
   */
  function PressRandomWasd(last: string, pick: nat): (key: string)
    requires pick < |Others(KEYS, last)|
    ensures key in KEYS && key != last
  {
    Others(KEYS, last)[pick]
  }

  /**
   * There are three choices when the last key is one of w/a/s/d (four otherwise),
   * so `random.choice` never sees an empty list, and every other key can be picked.
   */
  lemma PressRandomWasdChoices(last: string, k: string)
    ensures |Others(KEYS, last)| == if last in KEYS then 3 else 4
    ensures k in KEYS && k != last ==> exists pick: nat :: pick < |Others(KEYS, last)| && PressRandomWasd(last, pick) == k
  {
    var o := Others(KEYS, last);
    assert KEYS[1..] == ["a", "s", "d"] && KEYS[1..][1..] == ["s", "d"] && KEYS[1..][1..][1..] == ["d"];
    assert |Others(["d"], last)| == if last == "d" then 0 else 1 by {
      assert ["d"][1..] == [];
    }
    assert |Others(["s", "d"], last)| == if last == "s" || last == "d" then 1 else 2 by {
      assert ["s", "d"][1..] == ["d"];
    }
    assert |Others(["a", "s", "d"], last)| == if last == "a" || last == "s" || last == "d" then 2 else 3 by {
      assert ["a", "s", "d"][1..] == ["s", "d"];
    }
    if k in KEYS && k != last {
      var i :| 0 <= i < |o| && o[i] == k;
      assert PressRandomWasd(last, i) == k;
    }
  }
}

/** The area-averaging downscaler: each output pixel is the mean of a box of source pixels. */
module Downscale {
  import opened Arith
  import opened Bytes

  /** A pixel buffer: `h` rows of `w` pixels of `bpp` bytes, `stride` bytes apart. */
  datatype Image = Image(data: seq<byte>, w: nat, h: nat, stride: nat, bpp: nat) {
    /** The buffer holds every pixel; the last row need not be padded. */
    predicate Valid() {
      1 <= bpp <= 4 && (0 < h ==> (h - 1) * stride + w * bpp <= |data|)
    }

    lemma InRange(y: nat, x: nat, c: nat)
      requires Valid() && y < h && x < w && c < bpp
      ensures y * stride + x * bpp + c < |data|
    {
      MulMono(y, h - 1, stride);
      MulMono(x + 1, w, bpp);
      assert (x + 1) * bpp == x * bpp + bpp;
    }

    /** Byte `c` of pixel (y, x). */
    function Px(y: nat, x: nat, c: nat): byte
      requires Valid() && y < h && x < w && c < bpp
    {
      InRange(y, x, c);
      data[y * stride + x * bpp + c]
    }
  }

  predicate Box(img: Image, y0: nat, y1: nat, x0: nat, x1: nat, c: nat) {
    img.Valid() && y0 <= y1 <= img.h && x0 <= x1 <= img.w && c < img.bpp
  }

  function RowSum(img: Image, y: nat, x0: nat, x1: nat, c: nat): (s: nat)
    requires Box(img, y, y + 1, x0, x1, c)
    decreases x1
  {
    if x0 == x1 then 0 else RowSum(img, y, x0, x1 - 1, c) + img.Px(y, x1 - 1, c)
  }

  function BoxSum(img: Image, y0: nat, y1: nat, x0: nat, x1: nat, c: nat): (s: nat)
    requires Box(img, y0, y1, x0, x1, c)
    decreases y1
  {
    if y0 == y1 then 0 else BoxSum(img, y0, y1 - 1, x0, x1, c) + RowSum(img, y1 - 1, x0, x1, c)
  }

  function Area(y0: nat, y1: nat, x0: nat, x1: nat): nat
    requires y0 <= y1 && x0 <= x1
  {
    (y1 - y0) * (x1 - x0)
  }

  // ----- bounds of a mean

  /** All bytes of channel `c` in the box lie between `lo` and `hi`. */
  ghost predicate Bounded(img: Image, y0: nat, y1: nat, x0: nat, x1: nat, c: nat, lo: nat, hi: nat)
    requires Box(img, y0, y1, x0, x1, c)
  {
    forall y, x :: y0 <= y < y1 && x0 <= x < x1 ==> lo <= img.Px(y, x, c) <= hi
  }

  lemma {:induction false} RowSumBounded(img: Image, y: nat, x0: nat, x1: nat, c: nat, lo: nat, hi: nat)
    requires Box(img, y, y + 1, x0, x1, c) && Bounded(img, y, y + 1, x0, x1, c, lo, hi)
    ensures lo * (x1 - x0) <= RowSum(img, y, x0, x1, c) <= hi * (x1 - x0)
    decreases x1
  {
    if x0 < x1 {
      RowSumBounded(img, y, x0, x1 - 1, c, lo, hi);
      assert lo <= img.Px(y, x1 - 1, c) <= hi;
      assert lo * (x1 - x0) == lo * (x1 - 1 - x0) + lo && hi * (x1 - x0) == hi * (x1 - 1 - x0) + hi;
    }
  }

  lemma {:induction false} BoxSumBounded(img: Image, y0: nat, y1: nat, x0: nat, x1: nat, c: nat, lo: nat, hi: nat)
    requires Box(img, y0, y1, x0, x1, c) && Bounded(img, y0, y1, x0, x1, c, lo, hi)
    ensures lo * Area(y0, y1, x0, x1) <= BoxSum(img, y0, y1, x0, x1, c) <= hi * Area(y0, y1, x0, x1)
    decreases y1
  {
    if y0 < y1 {
      BoxSumBounded(img, y0, y1 - 1, x0, x1, c, lo, hi);
      RowSumBounded(img, y1 - 1, x0, x1, c, lo, hi);
      AreaGrows(y0, y1 - 1, x0, x1);
      BoundsAdd(lo, hi, Area(y0, y1 - 1, x0, x1), x1 - x0, Area(y0, y1, x0, x1), BoxSum(img, y0, y1 - 1, x0, x1, c),
                RowSum(img, y1 - 1, x0, x1, c), BoxSum(img, y0, y1, x0, x1, c));
    }
  }

  lemma AreaGrows(y0: nat, y1: nat, x0: nat, x1: nat)
    requires y0 <= y1 && x0 <= x1
    ensures Area(y0, y1 + 1, x0, x1) == Area(y0, y1, x0, x1) + (x1 - x0)
  {
    var rows, b := y1 - y0, x1 - x0;
    assert (rows + 1) * b == rows * b + b;
  }

  lemma BoundsAdd(lo: nat, hi: nat, a: nat, b: nat, ab: nat, s: nat, r: nat, sr: nat)
    requires lo * a <= s <= hi * a && lo * b <= r <= hi * b && ab == a + b && sr == s + r
    ensures lo * ab <= sr <= hi * ab
  {
  }

  /** The mean that is stored for a nonempty box. */
  function Mean(img: Image, y0: nat, y1: nat, x0: nat, x1: nat, c: nat): (m: byte)
    requires Box(img, y0, y1, x0, x1, c) && y0 < y1 && x0 < x1
  {
    AreaPositive(y0, y1, x0, x1);
    MeanIsByte(img, y0, y1, x0, x1, c);
    BoxSum(img, y0, y1, x0, x1, c) / Area(y0, y1, x0, x1)
  }

  lemma AreaPositive(y0: nat, y1: nat, x0: nat, x1: nat)
    requires y0 < y1 && x0 < x1
    ensures 0 < Area(y0, y1, x0, x1)
  {
    MulMono(1, y1 - y0, x1 - x0);
  }

  lemma QuotientBetween(sum: nat, area: nat, lo: nat, hi: nat)
    requires 0 < area && lo * area <= sum <= hi * area
    ensures lo <= sum / area <= hi
  {
    DivMono(lo * area, sum, area);
    DivMono(sum, hi * area, area);
    MulDiv(lo, area);
    MulDiv(hi, area);
  }

  /** The quotient fits in a byte, so the cast loses nothing. */
  lemma MeanIsByte(img: Image, y0: nat, y1: nat, x0: nat, x1: nat, c: nat)
    requires Box(img, y0, y1, x0, x1, c) && y0 < y1 && x0 < x1
    ensures 0 < Area(y0, y1, x0, x1) && BoxSum(img, y0, y1, x0, x1, c) / Area(y0, y1, x0, x1) <= 255
  {
    AreaPositive(y0, y1, x0, x1);
    BoxSumBounded(img, y0, y1, x0, x1, c, 0, 255);
    QuotientBetween(BoxSum(img, y0, y1, x0, x1, c), Area(y0, y1, x0, x1), 0, 255);
  }

  lemma QuotientExact(sum: nat, area: nat, m: nat)
    requires 0 < area && m == sum / area
    ensures m * area <= sum < (m + 1) * area
  {
    DivBounds(sum, area);
    assert (m + 1) * area == area * m + area;
  }

  /** The mean is the sum over the number of pixels, rounded down. */
  lemma MeanExact(img: Image, y0: nat, y1: nat, x0: nat, x1: nat, c: nat)
    requires Box(img, y0, y1, x0, x1, c) && y0 < y1 && x0 < x1
    ensures var m, n := Mean(img, y0, y1, x0, x1, c), (y1 - y0) * (x1 - x0);
            m * n <= BoxSum(img, y0, y1, x0, x1, c) < (m + 1) * n
  {
    AreaPositive(y0, y1, x0, x1);
    QuotientExact(BoxSum(img, y0, y1, x0, x1, c), Area(y0, y1, x0, x1), Mean(img, y0, y1, x0, x1, c));
  }

  /** A mean lies between the smallest and the largest byte of its box. */
  lemma MeanBetween(img: Image, y0: nat, y1: nat, x0: nat, x1: nat, c: nat, lo: nat, hi: nat)
    requires Box(img, y0, y1, x0, x1, c) && y0 < y1 && x0 < x1 && Bounded(img, y0, y1, x0, x1, c, lo, hi)
    ensures lo <= Mean(img, y0, y1, x0, x1, c) <= hi
  {
    AreaPositive(y0, y1, x0, x1);
    BoxSumBounded(img, y0, y1, x0, x1, c, lo, hi);
    QuotientBetween(BoxSum(img, y0, y1, x0, x1, c), Area(y0, y1, x0, x1), lo, hi);
  }

  /** The 32-bit pixel counter of a box does not wrap to zero; otherwise the division fails. */
  predicate Counts(y0: nat, y1: nat, x0: nat, x1: nat)
    requires y0 <= y1 && x0 <= x1
  {
    Wrap32(Area(y0, y1, x0, x1)) != 0
  }

  /** What is stored for a nonempty box: sum and pixels are both counted in 32 bits, which may wrap, and
      the quotient is cut to a byte. (Nothing is stored if the division fails; 0 stands for that.) */
  function Stored(img: Image, y0: nat, y1: nat, x0: nat, x1: nat, c: nat): (m: byte)
    requires Box(img, y0, y1, x0, x1, c) && y0 < y1 && x0 < x1
  {
    if Counts(y0, y1, x0, x1) then WrappedMean(BoxSum(img, y0, y1, x0, x1, c), Wrap32(Area(y0, y1, x0, x1))) % 256
    else 0
  }

  function WrappedMean(sum: nat, count: nat): nat
    requires 0 < count
  {
    Wrap32(sum) / count
  }

  lemma WrappedMeanSmaller(sum: nat, area: nat)
    requires 0 < area
    ensures WrappedMean(sum, area) <= sum / area
  {
    WrapBounds(sum);
    DivMono(Wrap32(sum), sum, area);
  }

  lemma WrappedQuotient(sum: nat, area: nat)
    requires 0 < area < 0x1_0000_0000
    ensures WrappedMean(sum, area) == sum / area <==> sum < 0x1_0000_0000
  {
    WrapBounds(sum);
    if sum >= 0x1_0000_0000 { QuotientDrops(Wrap32(sum), sum, area); }
  }

  lemma QuotientDrops(a: nat, b: nat, area: nat)
    requires 0 < area && a + area <= b
    ensures a / area < b / area
  {
    DivAddMultiple(a, 1, area);
    DivMono(a + 1 * area, b, area);
  }

  /** The stored byte is the mean of the box if and only if the sum of the box is below 2^32. */
  lemma StoredIsMean(img: Image, y0: nat, y1: nat, x0: nat, x1: nat, c: nat)
    requires Box(img, y0, y1, x0, x1, c) && y0 < y1 && x0 < x1 && Area(y0, y1, x0, x1) < 0x1_0000_0000
    ensures Stored(img, y0, y1, x0, x1, c) == Mean(img, y0, y1, x0, x1, c) <==>
            BoxSum(img, y0, y1, x0, x1, c) < 0x1_0000_0000
  {
    AreaPositive(y0, y1, x0, x1);
    WrapBounds(Area(y0, y1, x0, x1));
    MeanIsByte(img, y0, y1, x0, x1, c);
    WrappedMeanSmaller(BoxSum(img, y0, y1, x0, x1, c), Area(y0, y1, x0, x1));
    WrappedQuotient(BoxSum(img, y0, y1, x0, x1, c), Area(y0, y1, x0, x1));
  }

  /** The 32-bit accumulator cannot overflow for boxes of up to 16,843,009 pixels. */
  lemma AccumulatorFits(img: Image, y0: nat, y1: nat, x0: nat, x1: nat, c: nat)
    requires Box(img, y0, y1, x0, x1, c) && Area(y0, y1, x0, x1) <= 16_843_009
    ensures BoxSum(img, y0, y1, x0, x1, c) < 0x1_0000_0000
  {
    BoxSumBounded(img, y0, y1, x0, x1, c, 0, 255);
  }

  // ----- box edges

  /** The right edge carried from pixel to pixel by the inner loop. */
  function Carried(i: nat, n: nat, m: nat): nat
    requires 0 < m
  {
    if i == 0 then 0
    else
      var edge, least := Scale(i, n, m), Carried(i - 1, n, m) + 1;
      if edge > least then edge else least
  }

  lemma {:induction false} CarriedAtLeast(i: nat, n: nat, m: nat)
    requires 0 < m
    ensures i <= Carried(i, n, m)
  {
    if i > 0 { CarriedAtLeast(i - 1, n, m); }
  }

  lemma {:induction false} CarriedMono(i: nat, j: nat, n: nat, m: nat)
    requires 0 < m && i <= j
    ensures Carried(i, n, m) <= Carried(j, n, m)
  {
    if i < j { CarriedMono(i, j - 1, n, m); }
  }

  lemma {:induction false} CarriedIsScale(i: nat, n: nat, m: nat)
    requires 0 < m <= n
    ensures Carried(i, n, m) == Scale(i, n, m)
  {
    if i > 0 {
      CarriedIsScale(i - 1, n, m);
      ScaleGap(i - 1, 1, n, m);
    } else {
      assert 0 * n == 0;
    }
  }

  /** A target at least as wide as the source takes one source position per output position. */
  lemma {:induction false} CarriedWhenWider(i: nat, n: nat, m: nat)
    requires 0 < m && n <= m
    ensures Carried(i, n, m) == i
  {
    if i > 0 {
      CarriedWhenWider(i - 1, n, m);
      MulMono(n, m, i);
      DivMono(i * n, i * m, m);
      MulDiv(i, m);
    }
  }

  /** The boxes of a row end exactly at the source's right edge if and only if the target is no
      wider than the source; otherwise they run past it. */
  lemma BoxesEndAtEdge(n: nat, m: nat)
    requires 0 < m
    ensures Carried(m, n, m) == n <==> m <= n
    ensures m > n ==> Carried(m, n, m) > n
  {
    if m <= n {
      CarriedIsScale(m, n, m);
      MulDiv(n, m);
      assert m * n == n * m;
    } else {
      CarriedAtLeast(m, n, m);
    }
  }

  /** Consecutive edges leave no empty box, and stay in the source. */
  lemma EdgeFacts(i: nat, n: nat, m: nat)
    requires 0 < m <= n && i < m
    ensures Scale(i, n, m) < Scale(i + 1, n, m) <= n
  {
    ScaleGap(i, 1, n, m);
    ScaleRoom(i + 1, 0, n, m);
  }

  function Max(a: nat, b: nat): nat { if a > b then a else b }

  /** The rows read for output row `i` of `m` exist for any target height, if the source has a row. */
  lemma RowsExist(i: nat, n: nat, m: nat)
    requires i < m
    ensures Max(Scale(i + 1, n, m), Scale(i, n, m) + 1) <= Max(n, 1)
  {
    EdgeEnds(n, m);
    ScaleMono(i + 1, m, n, m);
    if n > 0 {
      MulMono(i + 1, m, n);
      assert (i + 1) * n == i * n + n && m * n == n * m;
      DivLess(i * n, m, n);
    }
  }

  lemma EdgeEnds(n: nat, m: nat)
    requires 0 < m
    ensures Scale(0, n, m) == 0 && Scale(m, n, m) == n
  {
    assert 0 * n == 0 && m * n == n * m;
    MulDiv(n, m);
  }

  /** Every source position lies in exactly one box. */
  lemma {:induction false} InExactlyOneBox(x: nat, n: nat, m: nat) returns (i: nat)
    requires 0 < m <= n && x < n
    ensures i < m && Scale(i, n, m) <= x < Scale(i + 1, n, m)
    ensures forall k :: 0 <= k < m && Scale(k, n, m) <= x < Scale(k + 1, n, m) ==> k == i
  {
    EdgeEnds(n, m);
    i := 0;
    while x >= Scale(i + 1, n, m)
      invariant i < m && Scale(i, n, m) <= x
      decreases m - i
    {
      i := i + 1;
    }
    forall k | 0 <= k < m && Scale(k, n, m) <= x < Scale(k + 1, n, m) ensures k == i {
      if k < i { ScaleMono(k + 1, i, n, m); }
      if k > i { ScaleMono(i + 1, k, n, m); }
    }
  }

  // ----- the boxes partition the source

  lemma {:induction false} RowSumSplit(img: Image, y: nat, x0: nat, x1: nat, x2: nat, c: nat)
    requires Box(img, y, y + 1, x0, x2, c) && x0 <= x1 <= x2
    ensures RowSum(img, y, x0, x2, c) == RowSum(img, y, x0, x1, c) + RowSum(img, y, x1, x2, c)
    decreases x2
  {
    if x1 < x2 { RowSumSplit(img, y, x0, x1, x2 - 1, c); }
  }

  lemma {:induction false} BoxSumSplitColumns(img: Image, y0: nat, y1: nat, x0: nat, x1: nat, x2: nat, c: nat)
    requires Box(img, y0, y1, x0, x2, c) && x0 <= x1 <= x2
    ensures BoxSum(img, y0, y1, x0, x2, c) == BoxSum(img, y0, y1, x0, x1, c) + BoxSum(img, y0, y1, x1, x2, c)
    decreases y1
  {
    if y0 < y1 {
      BoxSumSplitColumns(img, y0, y1 - 1, x0, x1, x2, c);
      RowSumSplit(img, y1 - 1, x0, x1, x2, c);
    }
  }

  lemma {:induction false} BoxSumSplitRows(img: Image, y0: nat, y1: nat, y2: nat, x0: nat, x1: nat, c: nat)
    requires Box(img, y0, y2, x0, x1, c) && y0 <= y1 <= y2
    ensures BoxSum(img, y0, y2, x0, x1, c) == BoxSum(img, y0, y1, x0, x1, c) + BoxSum(img, y1, y2, x0, x1, c)
    decreases y2
  {
    if y1 < y2 { BoxSumSplitRows(img, y0, y1, y2 - 1, x0, x1, c); }
  }

  predicate Shrinks(img: Image, dw: nat, dh: nat) {
    img.Valid() && 0 < dw <= img.w && 0 < dh <= img.h
  }

  /** Left edge of output column `dx`, and top edge of output row `dy`. */
  function X(img: Image, dw: nat, dx: nat): (x: nat)
    requires 0 < dw <= img.w && dx <= dw
    ensures x <= img.w
  {
    ScaleRoom(dx, 0, img.w, dw);
    Scale(dx, img.w, dw)
  }

  function Y(img: Image, dh: nat, dy: nat): (y: nat)
    requires 0 < dh <= img.h && dy <= dh
    ensures y <= img.h
  {
    ScaleRoom(dy, 0, img.h, dh);
    Scale(dy, img.h, dh)
  }

  lemma XStep(img: Image, dw: nat, dx: nat)
    requires 0 < dw <= img.w && dx < dw
    ensures X(img, dw, dx) < X(img, dw, dx + 1)
  {
    EdgeFacts(dx, img.w, dw);
  }

  lemma YStep(img: Image, dh: nat, dy: nat)
    requires 0 < dh <= img.h && dy < dh
    ensures Y(img, dh, dy) < Y(img, dh, dy + 1)
  {
    EdgeFacts(dy, img.h, dh);
  }

  /** Sum and pixel count of the first `n` boxes of output row `dy`. */
  function RowOfBoxes(img: Image, dw: nat, dh: nat, dy: nat, n: nat, c: nat): (r: (nat, nat))
    requires Shrinks(img, dw, dh) && dy < dh && n <= dw && c < img.bpp
  {
    if n == 0 then (0, 0)
    else
      var before := RowOfBoxes(img, dw, dh, dy, n - 1, c);
      YStep(img, dh, dy);
      XStep(img, dw, n - 1);
      (before.0 + BoxSum(img, Y(img, dh, dy), Y(img, dh, dy + 1), X(img, dw, n - 1), X(img, dw, n), c),
       before.1 + Area(Y(img, dh, dy), Y(img, dh, dy + 1), X(img, dw, n - 1), X(img, dw, n)))
  }

  function AllBoxes(img: Image, dw: nat, dh: nat, rows: nat, c: nat): (r: (nat, nat))
    requires Shrinks(img, dw, dh) && rows <= dh && c < img.bpp
  {
    if rows == 0 then (0, 0)
    else
      var before, row := AllBoxes(img, dw, dh, rows - 1, c), RowOfBoxes(img, dw, dh, rows - 1, dw, c);
      (before.0 + row.0, before.1 + row.1)
  }

  lemma AreaSplit(y0: nat, y1: nat, x0: nat, x1: nat)
    requires y0 <= y1 && x0 <= x1
    ensures Area(y0, y1, 0, x1) == Area(y0, y1, 0, x0) + Area(y0, y1, x0, x1)
    ensures Area(0, y1, x0, x1) == Area(0, y0, x0, x1) + Area(y0, y1, x0, x1)
  {
    var b := y1 - y0;
    assert b * x1 == b * x0 + b * (x1 - x0);
    var d := x1 - x0;
    assert y1 * d == y0 * d + b * d;
  }

  lemma {:induction false} RowOfBoxesIsStrip(img: Image, dw: nat, dh: nat, dy: nat, n: nat, c: nat)
    requires Shrinks(img, dw, dh) && dy < dh && n <= dw && c < img.bpp
    ensures Y(img, dh, dy) <= Y(img, dh, dy + 1)
    ensures RowOfBoxes(img, dw, dh, dy, n, c) ==
            (BoxSum(img, Y(img, dh, dy), Y(img, dh, dy + 1), 0, X(img, dw, n), c),
             Area(Y(img, dh, dy), Y(img, dh, dy + 1), 0, X(img, dw, n)))
  {
    YStep(img, dh, dy);
    var y0, y1 := Y(img, dh, dy), Y(img, dh, dy + 1);
    if n == 0 {
      EdgeEnds(img.w, dw);
      BoxSumBounded(img, y0, y1, 0, 0, c, 0, 0);
    } else {
      RowOfBoxesIsStrip(img, dw, dh, dy, n - 1, c);
      XStep(img, dw, n - 1);
      BoxSumSplitColumns(img, y0, y1, 0, X(img, dw, n - 1), X(img, dw, n), c);
      AreaSplit(y0, y1, X(img, dw, n - 1), X(img, dw, n));
    }
  }

  lemma {:induction false} AllBoxesIsTop(img: Image, dw: nat, dh: nat, rows: nat, c: nat)
    requires Shrinks(img, dw, dh) && rows <= dh && c < img.bpp
    ensures AllBoxes(img, dw, dh, rows, c) ==
            (BoxSum(img, 0, Y(img, dh, rows), 0, img.w, c), Area(0, Y(img, dh, rows), 0, img.w))
  {
    EdgeEnds(img.h, dh);
    if rows > 0 {
      AllBoxesIsTop(img, dw, dh, rows - 1, c);
      RowOfBoxesIsStrip(img, dw, dh, rows - 1, dw, c);
      EdgeEnds(img.w, dw);
      BoxSumSplitRows(img, 0, Y(img, dh, rows - 1), Y(img, dh, rows), 0, img.w, c);
      AreaSplit(Y(img, dh, rows - 1), Y(img, dh, rows), 0, img.w);
    }
  }

  /** Taken together, the boxes use every source pixel exactly once: their sums add up to the sum of
      the whole image and their counts to its number of pixels. */
  lemma BoxesPartition(img: Image, dw: nat, dh: nat, c: nat)
    requires Shrinks(img, dw, dh) && c < img.bpp
    ensures AllBoxes(img, dw, dh, dh, c) == (BoxSum(img, 0, img.h, 0, img.w, c), img.h * img.w)
  {
    AllBoxesIsTop(img, dw, dh, dh, c);
    EdgeEnds(img.h, dh);
  }
}

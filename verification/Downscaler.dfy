/** `ScaledPixelBuffer::downscale_from`: the loops, proved against the boxes of `Downscale`. */
module Downscaler {
  import opened Arith
  import opened Bytes
  import opened Options
  import opened Buffers
  import opened Downscale
  import SizeNegotiation

  /** The rectangle that the loops read: at least one row, and as far right as the carried edge goes. */
  function Reach(img: Image, dw: nat): Image
    requires 0 < dw
  {
    img.(w := Carried(dw, img.w, dw), h := Max(img.h, 1))
  }

  /** Everything read lies in the buffer. */
  predicate Fits(img: Image, dw: nat, dh: nat) {
    0 < dw && 0 < dh && Reach(img, dw).Valid()
  }

  function Top(img: Image, dh: nat, dy: nat): nat
    requires 0 < dh
  {
    Scale(dy, img.h, dh)
  }

  function Bottom(img: Image, dh: nat, dy: nat): nat
    requires 0 < dh
  {
    Max(Scale(dy + 1, img.h, dh), Top(img, dh, dy) + 1)
  }

  function Edge(img: Image, dw: nat, dx: nat): nat
    requires 0 < dw
  {
    Carried(dx, img.w, dw)
  }

  lemma BoxInside(img: Image, dw: nat, dh: nat, dy: nat, dx: nat)
    requires Fits(img, dw, dh) && dy < dh && dx < dw
    ensures Edge(img, dw, dx) < Edge(img, dw, dx + 1)
    ensures Box(Reach(img, dw), Top(img, dh, dy), Bottom(img, dh, dy), Edge(img, dw, dx), Edge(img, dw, dx + 1), 0)
  {
    RowsExist(dy, img.h, dh);
    CarriedMono(dx + 1, dw, img.w, dw);
  }

  /** The division for output pixel (dy, dx) succeeds. */
  predicate PixelCounts(img: Image, dw: nat, dh: nat, dy: nat, dx: nat)
    requires Fits(img, dw, dh) && dy < dh && dx < dw
  {
    BoxInside(img, dw, dh, dy, dx);
    Counts(Top(img, dh, dy), Bottom(img, dh, dy), Edge(img, dw, dx), Edge(img, dw, dx + 1))
  }

  predicate RowCounts(img: Image, dw: nat, dh: nat, dy: nat, n: nat)
    requires Fits(img, dw, dh) && dy < dh && n <= dw
  {
    forall dx :: 0 <= dx < n ==> PixelCounts(img, dw, dh, dy, dx)
  }

  predicate ImageCounts(img: Image, dw: nat, dh: nat, rows: nat)
    requires Fits(img, dw, dh) && rows <= dh
  {
    forall dy :: 0 <= dy < rows ==> RowCounts(img, dw, dh, dy, dw)
  }

  /** No division fails if the rectangle that is read has fewer than 2^32 pixels. */
  lemma SmallCounts(img: Image, dw: nat, dh: nat)
    requires Fits(img, dw, dh) && Reach(img, dw).h * Reach(img, dw).w < 0x1_0000_0000
    ensures ImageCounts(img, dw, dh, dh)
  {
    forall dy, dx | 0 <= dy < dh && 0 <= dx < dw ensures PixelCounts(img, dw, dh, dy, dx) {
      BoxInside(img, dw, dh, dy, dx);
      var y0, y1, x0, x1 := Top(img, dh, dy), Bottom(img, dh, dy), Edge(img, dw, dx), Edge(img, dw, dx + 1);
      AreaWithin(y0, y1, x0, x1, Reach(img, dw).h, Reach(img, dw).w);
      AreaPositive(y0, y1, x0, x1);
      WrapBounds(Area(y0, y1, x0, x1));
    }
  }

  lemma AreaWithin(y0: nat, y1: nat, x0: nat, x1: nat, h: nat, w: nat)
    requires y0 <= y1 <= h && x0 <= x1 <= w
    ensures Area(y0, y1, x0, x1) <= h * w
  {
    MulMono(y1 - y0, h, x1 - x0);
    MulMono(x1 - x0, w, h);
  }

  /** The demand `Fits` makes on the buffer is exact: it is short if and only if the last pixel of the
      last box of the last row is outside it. */
  lemma LastBoxDecides(img: Image, dw: nat, dh: nat)
    requires 0 < dw && 0 < dh && 1 <= img.bpp <= 4
    ensures Bottom(img, dh, dh - 1) == Max(img.h, 1)
    ensures Reach(img, dw).Valid() <==>
            (Bottom(img, dh, dh - 1) - 1) * img.stride + Edge(img, dw, dw) * img.bpp <= |img.data|
  {
    EdgeEnds(img.h, dh);
    RowsExist(dh - 1, img.h, dh);
  }

  /** A target no wider than a nonempty source needs nothing but the source's own pixels. */
  lemma NarrowFits(img: Image, dw: nat, dh: nat)
    requires img.Valid() && 0 < dw <= img.w && 0 < dh && 0 < img.h
    ensures Reach(img, dw) == img && Fits(img, dw, dh)
  {
    CarriedIsScale(dw, img.w, dw);
    EdgeEnds(img.w, dw);
  }

  /** The output pixel (dy, dx). */
  function OutPixel(img: Image, dw: nat, dh: nat, dy: nat, dx: nat): (p: seq<byte>)
    requires Fits(img, dw, dh) && dy < dh && dx < dw
    ensures |p| == img.bpp
  {
    BoxInside(img, dw, dh, dy, dx);
    Means(Reach(img, dw), Top(img, dh, dy), Bottom(img, dh, dy), Edge(img, dw, dx), Edge(img, dw, dx + 1))
  }

  function Means(img: Image, y0: nat, y1: nat, x0: nat, x1: nat): (p: seq<byte>)
    requires Box(img, y0, y1, x0, x1, 0) && y0 < y1 && x0 < x1
    ensures |p| == img.bpp
  {
    seq(img.bpp, c requires 0 <= c < img.bpp => Stored(img, y0, y1, x0, x1, c))
  }

  function OutRow(img: Image, dw: nat, dh: nat, dy: nat, n: nat): (r: seq<byte>)
    requires Fits(img, dw, dh) && dy < dh && n <= dw
    ensures |r| == n * img.bpp
  {
    if n == 0 then [] else OutRow(img, dw, dh, dy, n - 1) + OutPixel(img, dw, dh, dy, n - 1)
  }

  function OutImage(img: Image, dw: nat, dh: nat, rows: nat): (r: seq<byte>)
    requires Fits(img, dw, dh) && rows <= dh
    ensures |r| == rows * (dw * img.bpp)
  {
    if rows == 0 then [] else OutImage(img, dw, dh, rows - 1) + OutRow(img, dw, dh, rows - 1, dw)
  }

  // ----- the loops

  lemma WrapAdd(a: nat, b: nat)
    ensures Wrap32(Wrap32(a) + b) == Wrap32(a + b)
  {
    var q := a / 0x1_0000_0000;
    DivAddMultiple(Wrap32(a) + b, q, 0x1_0000_0000);
    assert Wrap32(a) + b + q * 0x1_0000_0000 == a + b;
  }

  /** Adds one pixel to the 32-bit accumulators; `sums` are the exact sums so far. */
  method AddPixel(img: Image, y: nat, x: nat, acc: array<nat>, ghost sums: seq<nat>)
    requires img.Valid() && y < img.h && x < img.w && acc.Length == 4 && |sums| == img.bpp
    requires forall c :: 0 <= c < img.bpp ==> acc[c] == Wrap32(sums[c])
    modifies acc
    ensures forall c :: 0 <= c < img.bpp ==> acc[c] == Wrap32(sums[c] + img.Px(y, x, c))
  {
    for c := 0 to img.bpp
      invariant forall k :: 0 <= k < c ==> acc[k] == Wrap32(sums[k] + img.Px(y, x, k))
      invariant forall k :: c <= k < img.bpp ==> acc[k] == Wrap32(sums[k])
    {
      WrapAdd(sums[c], img.Px(y, x, c));
      acc[c] := Wrap32(acc[c] + img.Px(y, x, c));
    }
  }

  ghost function SumsTo(img: Image, y: nat, x0: nat, x: nat, sums: seq<nat>): (s: seq<nat>)
    requires Box(img, y, y + 1, x0, x, 0) && |sums| == img.bpp
    ensures |s| == img.bpp
  {
    seq(img.bpp, c requires 0 <= c < img.bpp => sums[c] + RowSum(img, y, x0, x, c))
  }

  /** Adds one row of the box to the accumulators and to the counter. */
  method AddRow(img: Image, y: nat, x0: nat, x1: nat, acc: array<nat>, n0: nat, ghost count: nat, ghost sums: seq<nat>)
      returns (n: nat)
    requires Box(img, y, y + 1, x0, x1, 0) && acc.Length == 4 && |sums| == img.bpp && n0 == Wrap32(count)
    requires forall c :: 0 <= c < img.bpp ==> acc[c] == Wrap32(sums[c])
    modifies acc
    ensures n == Wrap32(count + (x1 - x0))
    ensures forall c :: 0 <= c < img.bpp ==> acc[c] == Wrap32(SumsTo(img, y, x0, x1, sums)[c])
  {
    n := n0;
    for x := x0 to x1
      invariant n == Wrap32(count + (x - x0))
      invariant forall c :: 0 <= c < img.bpp ==> acc[c] == Wrap32(SumsTo(img, y, x0, x, sums)[c])
    {
      AddPixel(img, y, x, acc, SumsTo(img, y, x0, x, sums));
      WrapAdd(count + (x - x0), 1);
      n := Wrap32(n + 1);
    }
  }

  ghost function Sums(img: Image, y0: nat, y1: nat, x0: nat, x1: nat): (s: seq<nat>)
    requires Box(img, y0, y1, x0, x1, 0)
    ensures |s| == img.bpp
  {
    seq(img.bpp, c requires 0 <= c < img.bpp => BoxSum(img, y0, y1, x0, x1, c))
  }

  /** Accumulates the box in 32-bit arithmetic and divides by the number of pixels counted; fails if
      that number has wrapped to zero. */
  method BoxMean(img: Image, y0: nat, y1: nat, x0: nat, x1: nat) returns (p: Option<seq<byte>>)
    requires Box(img, y0, y1, x0, x1, 0) && y0 < y1 && x0 < x1
    ensures p == if Counts(y0, y1, x0, x1) then Some(Means(img, y0, y1, x0, x1)) else None
  {
    var acc := new nat[4](_ => 0);
    var n: nat := 0;
    for y := y0 to y1
      invariant fresh(acc) && n == Wrap32(Area(y0, y, x0, x1))
      invariant forall c :: 0 <= c < img.bpp ==> acc[c] == Wrap32(Sums(img, y0, y, x0, x1)[c])
    {
      AreaGrows(y0, y, x0, x1);
      n := AddRow(img, y, x0, x1, acc, n, Area(y0, y, x0, x1), Sums(img, y0, y, x0, x1));
      assert SumsTo(img, y, x0, x1, Sums(img, y0, y, x0, x1)) == Sums(img, y0, y + 1, x0, x1);
    }
    if n == 0 { return None; }
    var q := Quotients(img, y0, y1, x0, x1, acc, n);
    p := Some(q);
  }

  method Quotients(img: Image, y0: nat, y1: nat, x0: nat, x1: nat, acc: array<nat>, n: nat) returns (p: seq<byte>)
    requires Box(img, y0, y1, x0, x1, 0) && y0 < y1 && x0 < x1 && 0 < n == Wrap32(Area(y0, y1, x0, x1))
    requires acc.Length == 4
    requires forall c :: 0 <= c < img.bpp ==> acc[c] == Wrap32(Sums(img, y0, y1, x0, x1)[c])
    ensures p == Means(img, y0, y1, x0, x1)
  {
    p := [];
    for c := 0 to img.bpp
      invariant |p| == c && p == Means(img, y0, y1, x0, x1)[..c]
    {
      assert acc[c] / n % 256 == Stored(img, y0, y1, x0, x1, c);
      p := p + [acc[c] / n % 256];
    }
  }

  lemma RowGrows(img: Image, dw: nat, dh: nat, dy: nat, dx: nat)
    requires Fits(img, dw, dh) && dy < dh && dx < dw
    ensures RowStart(dx, img.bpp) == |OutRow(img, dw, dh, dy, dx)|
    ensures |OutRow(img, dw, dh, dy, dx + 1)| <= |OutRow(img, dw, dh, dy, dw)|
  {
    MulMono(dx + 1, dw, img.bpp);
  }

  /** One output pixel. The left edge of its box is the right edge carried from the one before. */
  method DownscalePixel(img: Image, dw: nat, dh: nat, dy: nat, dx: nat, sy0: nat, sy1: nat, sx0: nat,
                        data: array<byte>, base: nat, ghost pre: seq<byte>) returns (ok: bool, sx1: nat)
    requires Fits(img, dw, dh) && dy < dh && dx < dw && |pre| == data.Length
    requires base + |OutRow(img, dw, dh, dy, dw)| <= |pre|
    requires sy0 == Top(img, dh, dy) && sy1 == Bottom(img, dh, dy) && sx0 == Edge(img, dw, dx)
    requires |OutRow(img, dw, dh, dy, dx)| <= |OutRow(img, dw, dh, dy, dw)|
    requires data[..] == Splice(pre, base, OutRow(img, dw, dh, dy, dx))
    modifies data
    ensures sx1 == Edge(img, dw, dx + 1) && |OutRow(img, dw, dh, dy, dx + 1)| <= |OutRow(img, dw, dh, dy, dw)|
    ensures ok <==> PixelCounts(img, dw, dh, dy, dx)
    ensures ok ==> data[..] == Splice(pre, base, OutRow(img, dw, dh, dy, dx + 1))
  {
    BoxInside(img, dw, dh, dy, dx);
    RowGrows(img, dw, dh, dy, dx);
    sx1 := Max((dx + 1) * img.w / dw, sx0 + 1);
    var mean := BoxMean(Reach(img, dw), sy0, sy1, sx0, sx1);
    if mean.None? { return false, sx1; }
    var p := mean.value;
    ok := true;
    CopyBytes(data, base + RowStart(dx, img.bpp), p, 0, |p|);
    assert p[0..0 + |p|] == p;
    SpliceTwice(pre, base, OutRow(img, dw, dh, dy, dx), p);
  }

  /** One output row; it fails if the division of any of its pixels does. */
  method DownscaleRow(img: Image, dw: nat, dh: nat, dy: nat, data: array<byte>, base: nat) returns (ok: bool)
    requires Fits(img, dw, dh) && dy < dh && base + |OutRow(img, dw, dh, dy, dw)| <= data.Length
    modifies data
    ensures ok <==> RowCounts(img, dw, dh, dy, dw)
    ensures ok ==> data[..] == Splice(old(data[..]), base, OutRow(img, dw, dh, dy, dw))
  {
    ghost var pre := data[..];
    SpliceNothing(pre, base);
    var sy0 := dy * img.h / dh;
    var sy1 := Max((dy + 1) * img.h / dh, sy0 + 1);
    var sx0: nat := 0;
    for dx := 0 to dw
      invariant sx0 == Edge(img, dw, dx) && |OutRow(img, dw, dh, dy, dx)| <= |OutRow(img, dw, dh, dy, dw)|
      invariant data[..] == Splice(pre, base, OutRow(img, dw, dh, dy, dx)) && RowCounts(img, dw, dh, dy, dx)
    {
      ok, sx0 := DownscalePixel(img, dw, dh, dy, dx, sy0, sy1, sx0, data, base, pre);
      if !ok { return; }
    }
    ok := true;
  }

  /** The whole image, tightly packed; it fails if and only if the pixel counter of some box wraps to
      zero. An empty target gives an empty buffer. */
  method DownscaleFrom(img: Image, dw: nat, dh: nat) returns (out: Option<Image>)
    requires 0 < dw && 0 < dh ==> Fits(img, dw, dh)
    ensures out.None? <==> 0 < dw && 0 < dh && !ImageCounts(img, dw, dh, dh)
    ensures out.Some? ==>
              && out.value.w == dw && out.value.h == dh && out.value.bpp == img.bpp && out.value.stride == dw * img.bpp
              && out.value.data == if dw == 0 || dh == 0 then [] else OutImage(img, dw, dh, dh)
  {
    var stride := RowStart(dw, img.bpp);
    if dw == 0 || dh == 0 { return Some(Image([], dw, dh, stride, img.bpp)); }
    var data := new byte[RowStart(dh, stride)];
    var ok := FillRows(img, dw, dh, data);
    out := if ok then Some(Image(data[..], dw, dh, stride, img.bpp)) else None;
  }

  lemma OutGrows(img: Image, dw: nat, dh: nat, dy: nat, pre: seq<byte>, base: nat)
    requires Fits(img, dw, dh) && dy < dh && |pre| == |OutImage(img, dw, dh, dh)|
    requires base == RowStart(dy, RowStart(dw, img.bpp))
    ensures base == |OutImage(img, dw, dh, dy)|
    ensures base + |OutRow(img, dw, dh, dy, dw)| == |OutImage(img, dw, dh, dy + 1)| <= |pre|
    ensures Splice(Splice(pre, 0, OutImage(img, dw, dh, dy)), base, OutRow(img, dw, dh, dy, dw)) ==
            Splice(pre, 0, OutImage(img, dw, dh, dy + 1))
  {
    RowEnd(dy, dh, dw * img.bpp, |pre|);
    SpliceTwice(pre, 0, OutImage(img, dw, dh, dy), OutRow(img, dw, dh, dy, dw));
  }

  method FillRows(img: Image, dw: nat, dh: nat, data: array<byte>) returns (ok: bool)
    requires Fits(img, dw, dh) && data.Length == |OutImage(img, dw, dh, dh)|
    modifies data
    ensures ok <==> ImageCounts(img, dw, dh, dh)
    ensures ok ==> data[..] == OutImage(img, dw, dh, dh)
  {
    ghost var pre := data[..];
    SpliceNothing(pre, 0);
    for dy := 0 to dh
      invariant |OutImage(img, dw, dh, dy)| <= data.Length
      invariant data[..] == Splice(pre, 0, OutImage(img, dw, dh, dy)) && ImageCounts(img, dw, dh, dy)
    {
      var base := RowStart(dy, RowStart(dw, img.bpp));
      OutGrows(img, dw, dh, dy, pre, base);
      ok := DownscaleRow(img, dw, dh, dy, data, base);
      if !ok { return; }
    }
    ok := true;
  }

  // ----- what the output means

  lemma {:induction false} OutRowAt(img: Image, dw: nat, dh: nat, dy: nat, n: nat, dx: nat, c: nat, at: nat)
    requires Fits(img, dw, dh) && dy < dh && n <= dw && dx < n && c < img.bpp && at == RowStart(dx, img.bpp) + c
    ensures at < |OutRow(img, dw, dh, dy, n)| && OutRow(img, dw, dh, dy, n)[at] == OutPixel(img, dw, dh, dy, dx)[c]
  {
    var before, last := OutRow(img, dw, dh, dy, n - 1), OutPixel(img, dw, dh, dy, n - 1);
    assert OutRow(img, dw, dh, dy, n) == before + last;
    if dx < n - 1 {
      OutRowAt(img, dw, dh, dy, n - 1, dx, c, at);
    } else {
      assert |before| == RowStart(dx, img.bpp);
      assert (before + last)[|before| + c] == last[c];
    }
  }

  lemma {:induction false} OutImageAt(img: Image, dw: nat, dh: nat, rows: nat, dy: nat, i: nat, at: nat)
    requires Fits(img, dw, dh) && rows <= dh && dy < rows && i < RowStart(dw, img.bpp)
    requires at == RowStart(dy, RowStart(dw, img.bpp)) + i
    ensures at < |OutImage(img, dw, dh, rows)| && OutImage(img, dw, dh, rows)[at] == OutRow(img, dw, dh, dy, dw)[i]
  {
    var stride := RowStart(dw, img.bpp);
    RowEnd(dy, rows, stride, rows * stride);
    if dy < rows - 1 { OutImageAt(img, dw, dh, rows - 1, dy, i, at); }
  }

  /** The downscaled image, as an image. */
  function Scaled(img: Image, dw: nat, dh: nat): Image
    requires Fits(img, dw, dh)
  {
    Image(OutImage(img, dw, dh, dh), dw, dh, dw * img.bpp, img.bpp)
  }

  lemma ScaledValid(img: Image, dw: nat, dh: nat)
    requires Fits(img, dw, dh)
    ensures Scaled(img, dw, dh).Valid()
  {
    RowEnd(dh - 1, dh, dw * img.bpp, dh * (dw * img.bpp));
  }

  /** Every byte of the output is what is stored for its box of the source. */
  lemma StoredPixel(img: Image, dw: nat, dh: nat, dy: nat, dx: nat, c: nat)
    requires Fits(img, dw, dh) && dy < dh && dx < dw && c < img.bpp
    ensures Scaled(img, dw, dh).Valid() && Edge(img, dw, dx) < Edge(img, dw, dx + 1)
    ensures Box(Reach(img, dw), Top(img, dh, dy), Bottom(img, dh, dy), Edge(img, dw, dx), Edge(img, dw, dx + 1), c)
    ensures Scaled(img, dw, dh).Px(dy, dx, c) ==
            Stored(Reach(img, dw), Top(img, dh, dy), Bottom(img, dh, dy), Edge(img, dw, dx), Edge(img, dw, dx + 1), c)
  {
    ScaledValid(img, dw, dh);
    BoxInside(img, dw, dh, dy, dx);
    var i := RowStart(dx, img.bpp) + c;
    OutRowAt(img, dw, dh, dy, dw, dx, c, i);
    OutImageAt(img, dw, dh, dh, dy, i, RowStart(dy, RowStart(dw, img.bpp)) + i);
  }

  lemma ShrinkFits(img: Image, dw: nat, dh: nat)
    requires Shrinks(img, dw, dh)
    ensures Fits(img, dw, dh) && Reach(img, dw) == img
  {
    NarrowFits(img, dw, dh);
  }

  /** The edges of the boxes when shrinking. */
  lemma ShrinkEdges(img: Image, dw: nat, dh: nat, dy: nat, dx: nat)
    requires Shrinks(img, dw, dh) && dy < dh && dx < dw
    ensures Y(img, dh, dy) < Y(img, dh, dy + 1) && X(img, dw, dx) < X(img, dw, dx + 1)
    ensures Top(img, dh, dy) == Y(img, dh, dy) && Bottom(img, dh, dy) == Y(img, dh, dy + 1)
    ensures Edge(img, dw, dx) == X(img, dw, dx) && Edge(img, dw, dx + 1) == X(img, dw, dx + 1)
    ensures Area(Y(img, dh, dy), Y(img, dh, dy + 1), X(img, dw, dx), X(img, dw, dx + 1)) <= img.h * img.w
  {
    YStep(img, dh, dy);
    XStep(img, dw, dx);
    CarriedIsScale(dx, img.w, dw);
    CarriedIsScale(dx + 1, img.w, dw);
    AreaWithin(Y(img, dh, dy), Y(img, dh, dy + 1), X(img, dw, dx), X(img, dw, dx + 1), img.h, img.w);
  }

  /** The number of pixels averaged for output pixel (dy, dx) when shrinking. */
  function BoxArea(img: Image, dw: nat, dh: nat, dy: nat, dx: nat): (a: nat)
    requires Shrinks(img, dw, dh) && dy < dh && dx < dw
    ensures a <= img.h * img.w
  {
    ShrinkEdges(img, dw, dh, dy, dx);
    Area(Y(img, dh, dy), Y(img, dh, dy + 1), X(img, dw, dx), X(img, dw, dx + 1))
  }

  /** When shrinking, a byte of the output whose box has fewer than 2^32 pixels is the mean of its box
      of the source if and only if the sum of the box is below 2^32. */
  lemma ScaledPixel(img: Image, dw: nat, dh: nat, dy: nat, dx: nat, c: nat)
    requires Shrinks(img, dw, dh) && dy < dh && dx < dw && c < img.bpp
    requires BoxArea(img, dw, dh, dy, dx) < 0x1_0000_0000
    ensures Fits(img, dw, dh) && Scaled(img, dw, dh).Valid()
    ensures Y(img, dh, dy) < Y(img, dh, dy + 1) && X(img, dw, dx) < X(img, dw, dx + 1)
    ensures Scaled(img, dw, dh).Px(dy, dx, c) ==
            Mean(img, Y(img, dh, dy), Y(img, dh, dy + 1), X(img, dw, dx), X(img, dw, dx + 1), c)
            <==> BoxSum(img, Y(img, dh, dy), Y(img, dh, dy + 1), X(img, dw, dx), X(img, dw, dx + 1), c) < 0x1_0000_0000
  {
    ShrinkFits(img, dw, dh);
    StoredPixel(img, dw, dh, dy, dx, c);
    ShrinkEdges(img, dw, dh, dy, dx);
    StoredIsMean(img, Y(img, dh, dy), Y(img, dh, dy + 1), X(img, dw, dx), X(img, dw, dx + 1), c);
  }

  /** A channel that is constant over the source keeps its value in exactly the output pixels whose
      box does not overflow the accumulator. */
  lemma ConstantPreserved(img: Image, dw: nat, dh: nat, c: nat, v: byte, dy: nat, dx: nat)
    requires Shrinks(img, dw, dh) && c < img.bpp && Bounded(img, 0, img.h, 0, img.w, c, v, v) && dy < dh && dx < dw
    requires BoxArea(img, dw, dh, dy, dx) < 0x1_0000_0000
    ensures Fits(img, dw, dh) && Scaled(img, dw, dh).Valid()
    ensures Scaled(img, dw, dh).Px(dy, dx, c) == v <==> v * BoxArea(img, dw, dh, dy, dx) < 0x1_0000_0000
  {
    ScaledPixel(img, dw, dh, dy, dx, c);
    MeanBetween(img, Y(img, dh, dy), Y(img, dh, dy + 1), X(img, dw, dx), X(img, dw, dx + 1), c, v, v);
    BoxSumBounded(img, Y(img, dh, dy), Y(img, dh, dy + 1), X(img, dw, dx), X(img, dw, dx + 1), c, v, v);
  }

  /** It can overflow: a white picture of 5000x5000 pixels does not stay white as a single pixel. */
  lemma WhiteOverflows(img: Image, c: nat)
    requires img.Valid() && img.w == 5000 && img.h == 5000 && c < img.bpp && Bounded(img, 0, 5000, 0, 5000, c, 255, 255)
    ensures Fits(img, 1, 1) && Scaled(img, 1, 1).Valid() && Scaled(img, 1, 1).Px(0, 0, c) != 255
  {
    WhiteOverflowsAt(img, c, 1, 0);
  }

  lemma WhiteOverflowsAt(img: Image, c: nat, one: nat, o: nat)
    requires img.Valid() && img.w == 5000 && img.h == 5000 && c < img.bpp
    requires Bounded(img, 0, img.h, 0, img.w, c, 255, 255)
    requires one == 1 && o == 0
    ensures Fits(img, one, one) && Scaled(img, one, one).Valid() && Scaled(img, one, one).Px(o, o, c) != 255
  {
    ConstantPreserved(img, one, one, c, 255, o, o);
    EdgeEnds(img.w, one);
    EdgeEnds(img.h, one);
  }

  /** The division can fail too: a picture of 65536x65536 pixels wraps the counter of its only box to zero. */
  lemma HugeFails(img: Image, one: nat)
    requires img.Valid() && img.w == 65536 && img.h == 65536 && one == 1
    ensures Fits(img, one, one) && !ImageCounts(img, one, one, one)
  {
    NarrowFits(img, one, one);
    EdgeEnds(img.w, one);
    EdgeEnds(img.h, one);
    ShrinkEdges(img, one, one, 0, 0);
    assert !PixelCounts(img, one, one, 0, 0);
    assert !RowCounts(img, one, one, 0, one);
  }

  /** Sources of up to 16,843,009 pixels, a 5K screen among them, never overflow the accumulator:
      every output byte is the mean of its box. */
  lemma ScreensAreExact(img: Image, dw: nat, dh: nat, dy: nat, dx: nat, c: nat)
    requires Shrinks(img, dw, dh) && img.h * img.w <= 16_843_009 && dy < dh && dx < dw && c < img.bpp
    ensures Fits(img, dw, dh) && Scaled(img, dw, dh).Valid() && ImageCounts(img, dw, dh, dh)
    ensures Y(img, dh, dy) < Y(img, dh, dy + 1) && X(img, dw, dx) < X(img, dw, dx + 1)
    ensures Scaled(img, dw, dh).Px(dy, dx, c) ==
            Mean(img, Y(img, dh, dy), Y(img, dh, dy + 1), X(img, dw, dx), X(img, dw, dx + 1), c)
  {
    ScaledPixel(img, dw, dh, dy, dx, c);
    ShrinkEdges(img, dw, dh, dy, dx);
    NarrowFits(img, dw, dh);
    SmallCounts(img, dw, dh);
    AccumulatorFits(img, Y(img, dh, dy), Y(img, dh, dy + 1), X(img, dw, dx), X(img, dw, dx + 1), c);
  }

  /** Scaling to the source's own size copies every pixel. */
  lemma SameSizeCopies(img: Image, dy: nat, dx: nat, c: nat)
    requires Shrinks(img, img.w, img.h) && dy < img.h && dx < img.w && c < img.bpp
    ensures Fits(img, img.w, img.h) && Scaled(img, img.w, img.h).Valid()
    ensures Scaled(img, img.w, img.h).Px(dy, dx, c) == img.Px(dy, dx, c)
  {
    ScaleSame(dy, img.h);
    ScaleSame(dy + 1, img.h);
    ScaleSame(dx, img.w);
    ScaleSame(dx + 1, img.w);
    OnePixelBox(img, dy, dx, c);
    ScaledPixel(img, img.w, img.h, dy, dx, c);
  }

  /** The same on the raw bytes: the copy has no padding between its rows. */
  lemma SameSizeBytes(img: Image, dy: nat, dx: nat, c: nat, from: nat, to: nat)
    requires Shrinks(img, img.w, img.h) && dy < img.h && dx < img.w && c < img.bpp
    requires from == dy * img.stride + dx * img.bpp + c && to == dy * (img.w * img.bpp) + dx * img.bpp + c
    ensures Fits(img, img.w, img.h) && from < |img.data| && to < |Scaled(img, img.w, img.h).data|
    ensures Scaled(img, img.w, img.h).data[to] == img.data[from]
  {
    SameSizeCopies(img, dy, dx, c);
    img.InRange(dy, dx, c);
    Scaled(img, img.w, img.h).InRange(dy, dx, c);
  }

  lemma OnePixelBox(img: Image, y: nat, x: nat, c: nat)
    requires img.Valid() && y < img.h && x < img.w && c < img.bpp
    ensures Mean(img, y, y + 1, x, x + 1, c) == img.Px(y, x, c) && BoxSum(img, y, y + 1, x, x + 1, c) < 0x1_0000_0000
  {
    MeanBetween(img, y, y + 1, x, x + 1, c, img.Px(y, x, c), img.Px(y, x, c));
    AccumulatorFits(img, y, y + 1, x, x + 1, c);
  }

  /** The conversion step only ever asks for a target no larger than the frame in either direction; if
      it is not empty, nothing outside the frame is read, and the boxes end at the frame's edges. */
  lemma ConversionShrinks(img: Image, encW: nat, encH: nat)
    requires img.Valid() && 0 < img.w && 0 < img.h && !SizeNegotiation.SourceFits(img.w, img.h, encW, encH)
    ensures var (dw, dh) := SizeNegotiation.FitDims(img.w, img.h, encW, encH);
            && dw <= img.w && dh <= img.h
            && (0 < dw && 0 < dh ==>
                  && Shrinks(img, dw, dh) && Fits(img, dw, dh) && Reach(img, dw) == img
                  && Edge(img, dw, dw) == img.w && Bottom(img, dh, dh - 1) == img.h)
  {
    SizeNegotiation.FitWithin(img.w, img.h, encW, encH);
    var (dw, dh) := SizeNegotiation.FitDims(img.w, img.h, encW, encH);
    if 0 < dw && 0 < dh {
      NarrowFits(img, dw, dh);
      BoxesEndAtEdge(img.w, dw);
      LastBoxDecides(img, dw, dh);
    }
  }

  /** So a captured frame of up to 16,843,009 pixels is converted without failing, and every byte of
      the converted frame is the mean of its box of the captured one. */
  lemma ConversionIsExact(img: Image, encW: nat, encH: nat, dw: nat, dh: nat, dy: nat, dx: nat, c: nat)
    requires img.Valid() && 0 < img.w && 0 < img.h && !SizeNegotiation.SourceFits(img.w, img.h, encW, encH)
    requires (dw, dh) == SizeNegotiation.FitDims(img.w, img.h, encW, encH) && dy < dh && dx < dw && c < img.bpp
    requires img.h * img.w <= 16_843_009
    ensures Shrinks(img, dw, dh) && Fits(img, dw, dh) && ImageCounts(img, dw, dh, dh) && Scaled(img, dw, dh).Valid()
    ensures Y(img, dh, dy) < Y(img, dh, dy + 1) && X(img, dw, dx) < X(img, dw, dx + 1)
    ensures Scaled(img, dw, dh).Px(dy, dx, c) ==
            Mean(img, Y(img, dh, dy), Y(img, dh, dy + 1), X(img, dw, dx), X(img, dw, dx + 1), c)
  {
    ConversionShrinks(img, encW, encH);
    ScreensAreExact(img, dw, dh, dy, dx, c);
  }
}

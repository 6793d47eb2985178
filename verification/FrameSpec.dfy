/** What a decoded frame becomes: the output size, the sampled positions, and the planes sent. */
module FrameSpec {
  import opened Arith
  import opened Bytes
  import opened TileLayout

  const MAX_WIDTH := 4096
  const MAX_HEIGHT := 2304

  /** The size accepted at the top of every generation's frame routine. */
  predicate SizeAccepted(w: nat, h: nat, stride: nat) {
    0 < w <= MAX_WIDTH && 0 < h <= MAX_HEIGHT && w <= stride <= MAX_WIDTH && stride % 64 == 0
  }

  /** Fits `w` by `h` into the output box, keeping the shape. */
  function Fit(w: nat, h: nat, boxW: nat, boxH: nat): (nat, nat)
    requires 0 < w && 0 < h
  {
    if w > boxW || h > boxH then
      if w * boxH > h * boxW then (boxW, ClearLow(Scale(h, boxW, w))) else (ClearLow(Scale(w, boxH, h)), boxH)
    else (w, h)
  }

  /** A source that is too wide for its height: its fitted height is below the box's and its own. */
  lemma WideFits(w: nat, h: nat, boxW: nat, boxH: nat)
    requires 0 < h && w * boxH > h * boxW && (w > boxW || h > boxH)
    ensures boxW < w && Scale(h, boxW, w) < boxH && Scale(h, boxW, w) < h
  {
    if w <= boxW { MulMono(w, boxW, boxH); MulMono(boxH, h, boxW); }
    DivLess(h * boxW, w, boxH);
    assert h * boxW < h * w by { MulLess(boxW, w, h); }
    DivLess(h * boxW, w, h);
  }

  /** The other case: its fitted width is in the box and below its own. */
  lemma TallFits(w: nat, h: nat, boxW: nat, boxH: nat)
    requires 0 < w && 0 < h && 0 < boxH && w * boxH <= h * boxW && (w > boxW || h > boxH)
    ensures boxH < h && Scale(w, boxH, h) <= boxW && Scale(w, boxH, h) < w
  {
    if h <= boxH { MulMono(h, boxH, boxW); MulLess(boxW, w, boxH); }
    assert w * boxH < w * h by { MulLess(boxH, h, w); }
    DivLess(w * boxH, h, w);
    assert h * boxW == boxW * h;
    DivMono(w * boxH, boxW * h, h);
    MulDiv(boxW, h);
  }

  /** An output in the box that is the source, or has both sides even and smaller than the source's. */
  predicate FitsBox(o: (nat, nat), w: nat, h: nat, boxW: nat, boxH: nat) {
    && o.0 <= boxW && o.1 <= boxH
    && (o == (w, h) <==> w <= boxW && h <= boxH)
    && (o != (w, h) ==> o.0 < w && o.1 < h && o.0 % 2 == 0 && o.1 % 2 == 0)
  }

  lemma EvenHeightFits(w: nat, h: nat, boxW: nat, boxH: nat, q: nat)
    requires boxW < w && q < boxH && q < h && boxW % 2 == 0
    ensures FitsBox((boxW, ClearLow(q)), w, h, boxW, boxH)
  {
  }

  lemma EvenWidthFits(w: nat, h: nat, boxW: nat, boxH: nat, q: nat)
    requires boxH < h && q <= boxW && q < w && boxH % 2 == 0
    ensures FitsBox((ClearLow(q), boxH), w, h, boxW, boxH)
  {
  }

  lemma WideFitsBox(w: nat, h: nat, boxW: nat, boxH: nat)
    requires 0 < h && boxW % 2 == 0 && w * boxH > h * boxW && (w > boxW || h > boxH)
    ensures FitsBox((boxW, ClearLow(Scale(h, boxW, w))), w, h, boxW, boxH)
  {
    WideFits(w, h, boxW, boxH);
    EvenHeightFits(w, h, boxW, boxH, Scale(h, boxW, w));
  }

  lemma TallFitsBox(w: nat, h: nat, boxW: nat, boxH: nat)
    requires 0 < w && 0 < h && 0 < boxH && boxH % 2 == 0 && w * boxH <= h * boxW && (w > boxW || h > boxH)
    ensures FitsBox((ClearLow(Scale(w, boxH, h)), boxH), w, h, boxW, boxH)
  {
    TallFits(w, h, boxW, boxH);
    EvenWidthFits(w, h, boxW, boxH, Scale(w, boxH, h));
  }

  /** The fit lands in the box; it changes the size exactly when the source overflows the box,
      and then both sides are even and strictly smaller than the source's. */
  lemma FitInBox(w: nat, h: nat, boxW: nat, boxH: nat)
    requires 0 < w && 0 < h && 0 < boxW && 0 < boxH && boxW % 2 == 0 && boxH % 2 == 0
    ensures FitsBox(Fit(w, h, boxW, boxH), w, h, boxW, boxH)
  {
    if w > boxW || h > boxH {
      if w * boxH > h * boxW { WideFitsBox(w, h, boxW, boxH); } else { TallFitsBox(w, h, boxW, boxH); }
    }
  }

  /** A scaled picture fills the box in one direction, and the other side is the largest even number
      that keeps the source's shape. */
  lemma FitKeepsShape(w: nat, h: nat, boxW: nat, boxH: nat)
    requires 0 < w && 0 < h && (w > boxW || h > boxH)
    ensures var (ow, oh) := Fit(w, h, boxW, boxH);
            || (ow == boxW && oh * w <= h * boxW < (oh + 2) * w)
            || (oh == boxH && ow * h <= w * boxH < (ow + 2) * h)
  {
    if w * boxH > h * boxW { EvenQuotient(h * boxW, w); } else { EvenQuotient(w * boxH, h); }
  }

  lemma EvenQuotient(a: nat, d: nat)
    requires 0 < d
    ensures ClearLow(a / d) * d <= a < (ClearLow(a / d) + 2) * d
  {
    DivBounds(a, d);
    var q, e := a / d, ClearLow(a / d);
    Cleared(q);
    MulMono(e, q, d);
    MulMono(q + 1, e + 2, d);
    assert (q + 1) * d == q * d + d;
  }

  lemma MulLess(a: nat, b: nat, c: nat)
    requires a < b && 0 < c
    ensures a * c < b * c && c * a < c * b
  {
  }

  // ----- sampled positions

  function LumaPos(w: nat, ow: nat): (p: seq<nat>)
    requires 0 < ow
    ensures |p| == ow
  {
    seq(ow, c requires 0 <= c < ow => Scale(c, w, ow))
  }

  /** Chroma bytes come in pairs; the pair of output column `2c` starts at an even source column. */
  function PairPos(w: nat, ow: nat, c: nat): nat
    requires 0 < ow
  {
    ClearLow(Scale(2 * c, w, ow))
  }

  function ChromaPos(w: nat, ow: nat): (p: seq<nat>)
    requires 0 < ow
    ensures |p| == ow / 2 * 2
  {
    seq(ow / 2 * 2, j requires 0 <= j < ow / 2 * 2 => PairPos(w, ow, j / 2) + j % 2)
  }

  ghost predicate Below(p: seq<nat>, w: nat) {
    forall c :: 0 <= c < |p| ==> p[c] < w
  }

  lemma LumaPosBelow(w: nat, ow: nat)
    requires 0 < ow <= w
    ensures Below(LumaPos(w, ow), w)
  {
    forall c | 0 <= c < ow ensures Scale(c, w, ow) < w { ScaleRoom(c, 1, w, ow); }
  }

  lemma ClearedPair(x: nat, y: nat, w: nat)
    requires x + 2 <= w && x + 2 <= y
    ensures ClearLow(x) % 2 == 0 && ClearLow(x) + 1 < w && ClearLow(x) + 2 <= ClearLow(y)
  {
  }

  /** Both bytes of a sampled pair lie in the source row, and the pairs are strictly increasing. */
  lemma PairPosFacts(w: nat, ow: nat, c: nat)
    requires 0 < ow <= w && 2 * c + 2 <= ow
    ensures PairPos(w, ow, c) % 2 == 0 && PairPos(w, ow, c) + 1 < w
    ensures PairPos(w, ow, c) + 2 <= PairPos(w, ow, c + 1)
    ensures ReadAtEven(2 * c, w, ow, PairPos(w, ow, c))
  {
    EvenQuotient(2 * c * w, ow);
    ScaleRoom(2 * c, 2, w, ow);
    ScaleGap(2 * c, 2, w, ow);
    assert 2 * c + 2 == 2 * (c + 1);
    ClearedPair(Scale(2 * c, w, ow), Scale(2 * (c + 1), w, ow), w);
  }

  /** Column `j` of an output row of `ow` chroma bytes belongs to a pair that fits the row. */
  lemma PairOfColumn(j: nat, ow: nat)
    requires j < ow / 2 * 2
    ensures 2 * (j / 2) + 2 <= ow && j % 2 <= 1
  {
  }

  lemma ChromaPosBelow(w: nat, ow: nat)
    requires 0 < ow <= w
    ensures Below(ChromaPos(w, ow), w)
  {
    forall j | 0 <= j < ow / 2 * 2 ensures PairPos(w, ow, j / 2) + j % 2 < w {
      PairOfColumn(j, ow);
      PairPosFacts(w, ow, j / 2);
    }
  }

  // ----- planes

  /** Output row `r` is read from source row `Scale(r, h, oh)`. */
  ghost predicate RowsFit(h: nat, oh: nat, rows: nat, srcRows: nat)
    requires 0 < oh
  {
    forall r :: 0 <= r < rows ==> Scale(r, h, oh) < srcRows
  }

  lemma LumaRowsFit(h: nat, oh: nat)
    requires 0 < oh <= h
    ensures RowsFit(h, oh, oh, h)
  {
    forall r | 0 <= r < oh ensures Scale(r, h, oh) < h { ScaleRoom(r, 1, h, oh); }
  }

  lemma ChromaRowsFit(h: nat, oh: nat)
    requires 0 < oh <= h
    ensures RowsFit(h, oh, oh / 2, h / 2)
  {
    forall r | 0 <= r < oh / 2 ensures Scale(r, h, oh) < h / 2 { ScaleHalf(r, h, oh); }
  }

  /** The simple form: scale an already linear plane of row length `w`. */
  function ScaledRow(lin: seq<byte>, start: nat, pos: seq<nat>): (r: seq<byte>)
    requires forall c :: 0 <= c < |pos| ==> start + pos[c] < |lin|
    ensures |r| == |pos|
  {
    seq(|pos|, c requires 0 <= c < |pos| => lin[start + pos[c]])
  }

  ghost predicate CanScale(lin: seq<byte>, w: nat, h: nat, oh: nat, pos: seq<nat>, rows: nat) {
    0 < oh && Below(pos, w) && RowsFit(h, oh, rows, |lin| / (if w == 0 then 1 else w))
  }

  lemma ScaledRowInRange(lin: seq<byte>, w: nat, sy: nat, pos: seq<nat>)
    requires 0 < w && Below(pos, w) && sy < |lin| / w
    ensures forall c :: 0 <= c < |pos| ==> sy * w + pos[c] < |lin|
  {
    DivBounds(|lin|, w);
    forall c | 0 <= c < |pos| ensures sy * w + pos[c] < |lin| { RowMajor(|lin| / w, w, sy, pos[c]); }
  }

  ghost function ScaledPlane(lin: seq<byte>, w: nat, h: nat, oh: nat, pos: seq<nat>, rows: nat): (r: seq<byte>)
    requires 0 < w && CanScale(lin, w, h, oh, pos, rows)
    ensures |r| == rows * |pos|
  {
    if rows == 0 then [] else
      ScaledRowInRange(lin, w, Scale(rows - 1, h, oh), pos);
      ScaledPlane(lin, w, h, oh, pos, rows - 1) + ScaledRow(lin, Scale(rows - 1, h, oh) * w, pos)
  }

  /** The fast form: read each sampled byte straight from its tile. */
  ghost predicate CanSample(s: Source, w: nat, h: nat, oh: nat, pos: seq<nat>, rows: nat) {
    s.Valid() && 0 < oh && 0 < w <= s.Width() && Below(pos, w) && RowsFit(h, oh, rows, s.Height())
  }

  function SampledRow(s: Source, sy: nat, pos: seq<nat>): (r: seq<byte>)
    requires s.Valid() && sy < s.Height() && Below(pos, s.Width())
    ensures |r| == |pos|
  {
    seq(|pos|, c requires 0 <= c < |pos| => s.At(sy, pos[c]))
  }

  ghost function SampledPlane(s: Source, w: nat, h: nat, oh: nat, pos: seq<nat>, rows: nat): (r: seq<byte>)
    requires CanSample(s, w, h, oh, pos, rows)
    ensures |r| == rows * |pos|
  {
    if rows == 0 then [] else
      SampledPlane(s, w, h, oh, pos, rows - 1) + SampledRow(s, Scale(rows - 1, h, oh), pos)
  }

  lemma SampledRowIsScaled(s: Source, w: nat, pos: seq<nat>, srcRows: nat, lin: seq<byte>, sy: nat)
    requires s.Valid() && 0 < w <= s.Width() && Below(pos, w) && sy < srcRows <= s.Height()
    requires lin == UntiledPlane(s, srcRows, w) && srcRows == |lin| / w
    ensures forall c :: 0 <= c < |pos| ==> sy * w + pos[c] < |lin|
    ensures SampledRow(s, sy, pos) == ScaledRow(lin, sy * w, pos)
  {
    ScaledRowInRange(lin, w, sy, pos);
    forall c | 0 <= c < |pos| ensures SampledRow(s, sy, pos)[c] == ScaledRow(lin, sy * w, pos)[c] {
      UntiledPlaneAt(s, srcRows, w, sy, pos[c]);
    }
  }

  /** Sampling the tiles equals untiling the whole plane and then scaling it. */
  lemma {:induction false} SampleIsScaledUntile(s: Source, w: nat, h: nat, oh: nat, pos: seq<nat>, rows: nat,
                                                srcRows: nat)
    requires CanSample(s, w, h, oh, pos, rows) && srcRows <= s.Height() && RowsFit(h, oh, rows, srcRows)
    ensures CanScale(UntiledPlane(s, srcRows, w), w, h, oh, pos, rows)
    ensures SampledPlane(s, w, h, oh, pos, rows) == ScaledPlane(UntiledPlane(s, srcRows, w), w, h, oh, pos, rows)
  {
    var lin := UntiledPlane(s, srcRows, w);
    MulDiv(srcRows, w);
    if rows > 0 {
      SampleIsScaledUntile(s, w, h, oh, pos, rows - 1, srcRows);
      SampledRowIsScaled(s, w, pos, srcRows, lin, Scale(rows - 1, h, oh));
    }
  }

  /** Byte (row, col) of a sampled plane. */
  lemma {:induction false} SampledPlaneAt(s: Source, w: nat, h: nat, oh: nat, pos: seq<nat>, rows: nat,
                                          row: nat, col: nat)
    requires CanSample(s, w, h, oh, pos, rows) && row < rows && col < |pos|
    ensures row * |pos| + col < rows * |pos|
    ensures SampledPlane(s, w, h, oh, pos, rows)[row * |pos| + col] == s.At(Scale(row, h, oh), pos[col])
  {
    RowMajor(rows, |pos|, row, col);
    if row < rows - 1 {
      RowMajor(rows - 1, |pos|, row, col);
      SampledPlaneAt(s, w, h, oh, pos, rows - 1, row, col);
    }
  }

  /** Scaling to the source's own size and reading columns in order is plain untiling. */
  lemma {:induction false} SampleSameSize(s: Source, w: nat, h: nat, pos: seq<nat>, rows: nat)
    requires 0 < h && CanSample(s, w, h, h, pos, rows) && rows <= s.Height()
    requires |pos| == w && forall c :: 0 <= c < w ==> pos[c] == c
    ensures SampledPlane(s, w, h, h, pos, rows) == UntiledPlane(s, rows, w)
  {
    if rows > 0 {
      SampleSameSize(s, w, h, pos, rows - 1);
      ScaleSame(rows - 1, h);
      assert SampledRow(s, rows - 1, pos) == UntiledRow(s, rows - 1, w);
    }
  }

  // ----- one plane of one frame

  /** Producing one plane: `src` holds a `w` by `h` picture (its luma, or its interleaved chroma at
      half height), which is to be sent at `ow` by `oh`. */
  datatype Job = Job(src: Source, chroma: bool, w: nat, h: nat, ow: nat, oh: nat) {
    ghost predicate Valid() {
      && src.Valid() && src.layout.rows == (if chroma then 8 else 16)
      && w <= src.Width() <= MAX_WIDTH && h <= MAX_HEIGHT && SrcRows() <= src.Height()
      && 0 < ow <= w && 0 < oh <= h && ow <= 1920 && oh <= 1080 && (chroma ==> ow % 2 == 0)
    }

    function SrcRows(): nat { if chroma then h / 2 else h }

    function Rows(): nat { if chroma then oh / 2 else oh }

    function Pos(): seq<nat>
      requires 0 < ow
    {
      if chroma then ChromaPos(w, ow) else LumaPos(w, ow)
    }

    /** Every sampled byte exists. */
    lemma Sampleable()
      requires Valid()
      ensures |Pos()| == ow && Below(Pos(), w) && RowsFit(h, oh, Rows(), SrcRows())
      ensures CanSample(src, w, h, oh, Pos(), Rows())
    {
      if chroma {
        ChromaPosBelow(w, ow);
        ChromaRowsFit(h, oh);
      } else {
        LumaPosBelow(w, ow);
        LumaRowsFit(h, oh);
      }
    }

    /** The plane to send. */
    ghost function Plane(): (r: seq<byte>)
      requires Valid()
      ensures |r| == Rows() * ow
    {
      Sampleable();
      SampledPlane(src, w, h, oh, Pos(), Rows())
    }

    ghost function PlaneRow(row: nat): (r: seq<byte>)
      requires Valid() && row < Rows()
      ensures |r| == ow
      ensures |Pos()| == ow && Below(Pos(), w) && Scale(row, h, oh) < SrcRows()
      ensures r == SampledRow(src, Scale(row, h, oh), Pos())
    {
      Sampleable();
      SampledRow(src, Scale(row, h, oh), Pos())
    }

    ghost function PlaneTo(row: nat): (r: seq<byte>)
      requires Valid() && row <= Rows()
      ensures |r| == row * ow
      ensures row == Rows() ==> r == Plane()
    {
      Sampleable();
      SampledPlane(src, w, h, oh, Pos(), row)
    }

    lemma PlaneStep(row: nat)
      requires Valid() && row < Rows()
      ensures PlaneTo(row + 1) == PlaneTo(row) + PlaneRow(row)
    {
      Sampleable();
    }

    /** Byte `i` of output row `row`. */
    ghost function Byte(row: nat, i: nat): byte
      requires Valid() && row < Rows() && i < ow
    {
      RowMajor(Rows(), ow, row, i);
      Plane()[row * ow + i]
    }

    /** The meaning of the plane: untile everything, then pick the nearest neighbours. */
    lemma PlaneIsScaledUntile()
      requires Valid()
      ensures CanScale(UntiledPlane(src, SrcRows(), w), w, h, oh, Pos(), Rows())
      ensures Plane() == ScaledPlane(UntiledPlane(src, SrcRows(), w), w, h, oh, Pos(), Rows())
    {
      Sampleable();
      SampleIsScaledUntile(src, w, h, oh, Pos(), Rows(), SrcRows());
    }
  }

  lemma ByteOfPlane(j: Job, row: nat, i: nat)
    requires j.Valid() && row < j.Rows() && i < j.ow
    ensures |j.Pos()| == j.ow && j.Pos()[i] < j.src.Width() && Scale(row, j.h, j.oh) < j.src.Height()
    ensures j.Byte(row, i) == j.src.At(Scale(row, j.h, j.oh), j.Pos()[i])
  {
    j.Sampleable();
    SampledPlaneAt(j.src, j.w, j.h, j.oh, j.Pos(), j.Rows(), row, i);
  }

  /** A luma byte is the untiled pixel at the scaled row and column. */
  lemma LumaByte(j: Job, row: nat, col: nat, sy: nat, sx: nat)
    requires j.Valid() && !j.chroma && row < j.oh && col < j.ow
    requires ReadAt(row, j.h, j.oh, sy) && ReadAt(col, j.w, j.ow, sx)
    ensures sy < j.src.Height() && sx < j.src.Width()
    ensures j.Byte(row, col) == j.src.At(sy, sx)
  {
    ReadAtScale(row, j.h, j.oh, sy);
    ReadAtScale(col, j.w, j.ow, sx);
    ByteOfPlane(j, row, col);
  }

  lemma ChromaPosAt(w: nat, ow: nat, c: nat)
    requires 0 < ow && c < ow / 2
    ensures ChromaPos(w, ow)[2 * c] == PairPos(w, ow, c)
    ensures ChromaPos(w, ow)[2 * c + 1] == PairPos(w, ow, c) + 1
  {
    assert 2 * c / 2 == c && (2 * c + 1) / 2 == c;
  }

  /** A chroma pair (byte 0 or 1 of it) is the untiled pair at the scaled row and the even scaled column. */
  lemma ChromaByte(j: Job, row: nat, c: nat, half: nat, sy: nat, sx: nat)
    requires j.Valid() && j.chroma && row < j.oh / 2 && c < j.ow / 2 && half < 2
    requires ReadAt(row, j.h, j.oh, sy) && ReadAtEven(2 * c, j.w, j.ow, sx)
    ensures sy < j.src.Height() && sx + half < j.src.Width()
    ensures j.Byte(row, 2 * c + half) == j.src.At(sy, sx + half)
  {
    ReadAtScale(row, j.h, j.oh, sy);
    ReadAtEvenScale(2 * c, j.w, j.ow, sx);
    var i := 2 * c + half;
    ChromaPosAt(j.w, j.ow, c);
    assert j.Pos()[i] == sx + half;
    ByteOfPlane(j, row, i);
  }

  lemma PosSameSize(chroma: bool, w: nat)
    requires 0 < w && (chroma ==> w % 2 == 0)
    ensures var pos := if chroma then ChromaPos(w, w) else LumaPos(w, w);
            |pos| == w && forall c :: 0 <= c < w ==> pos[c] == c
  {
    if chroma {
      forall c | 0 <= c < w ensures ChromaPos(w, w)[c] == c {
        ScaleSame(c / 2 * 2, w);
        ScaleSame(2 * (c / 2), w);
      }
    } else {
      forall c | 0 <= c < w ensures LumaPos(w, w)[c] == c { ScaleSame(c, w); }
    }
  }

  /** At the source's own size the plane is the untiled plane. */
  lemma PlaneSameSize(j: Job)
    requires j.Valid() && j.ow == j.w && j.oh == j.h
    ensures j.Plane() == UntiledPlane(j.src, j.SrcRows(), j.w)
  {
    j.Sampleable();
    PosSameSize(j.chroma, j.w);
    SampleSameSize(j.src, j.w, j.h, j.Pos(), j.Rows());
  }
}

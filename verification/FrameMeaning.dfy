/** What each generation of the frame routine sends, byte by byte and in plain numbers: the sizes it
    accepts, the output size, and for every output byte the byte of the mapped buffer it comes from. */
module FrameMeaning {
  import opened Arith
  import opened Bytes
  import opened Options
  import opened TileLayout
  import opened FrameSpec
  import opened FramePath

  datatype Version = One | Four | Five {
    function Model(): Generation {
      match this
      case One => V1
      case Four => V4
      case Five => V5
    }

    function BoxW(): nat { if One? then 1280 else 1920 }

    function BoxH(): nat { if One? then 800 else 1080 }

    /** Where the pixels start in a mapped buffer; version 1 takes them to start at the beginning. */
    function Start(buf: nat, pix: nat): nat {
      if !One? && buf < pix < buf + 0x10_0000 then pix - buf else 0
    }

    /** The row of a 16-row luma tile in tile column `tx` that holds image row `sy`. */
    function LumaRow(sy: nat, tx: nat): nat {
      if Five? then 4 * LUMA_BLOCKS[tx % 4][sy % 16 / 4] + sy % 4 else sy % 16
    }

    /** The row of an 8-row chroma tile in tile column `tx` that holds chroma row `sy`. */
    function ChromaRow(sy: nat, tx: nat): nat {
      if Five? then 4 * CHROMA_BLOCKS[tx % 2][sy % 8 / 4] + sy % 4 else sy % 8
    }

    /** The byte of the luma buffer that holds pixel (sy, sx) of a picture of the given stride. */
    function LumaPlace(start: nat, stride: nat, sy: nat, sx: nat): nat {
      start + (sy / 16 * (stride / 64) + sx / 64) * 1024 + LumaRow(sy, sx / 64) * 64 + sx % 64
    }

    function ChromaPlace(start: nat, stride: nat, sy: nat, sx: nat): nat {
      start + (sy / 8 * (stride / 64) + sx / 64) * 512 + ChromaRow(sy, sx / 64) * 64 + sx % 64
    }
  }

  /** The output size for a picture of `w` by `h`: its own if it fits the box; otherwise it fills the box
      one way and keeps its shape, down to an even number, the other way. */
  predicate OutputSize(w: nat, h: nat, boxW: nat, boxH: nat, ow: nat, oh: nat) {
    if w <= boxW && h <= boxH then ow == w && oh == h
    else if w * boxH > h * boxW then ow == boxW && ReadAtEven(h, boxW, w, oh)
    else oh == boxH && ReadAtEven(w, boxH, h, ow)
  }

  /** The output size of the model is the one described. */
  lemma FitDescribed(w: nat, h: nat, boxW: nat, boxH: nat, ow: nat, oh: nat)
    requires 0 < w && 0 < h
    ensures Fit(w, h, boxW, boxH) == (ow, oh) <==> OutputSize(w, h, boxW, boxH, ow, oh)
  {
    if w > boxW || h > boxH {
      if w * boxH > h * boxW { EvenScaleExact(h, boxW, w, oh); } else { EvenScaleExact(w, boxH, h, ow); }
    }
  }

  lemma EvenScaleExact(i: nat, n: nat, m: nat, q: nat)
    requires 0 < m
    ensures ClearLow(Scale(i, n, m)) == q <==> ReadAtEven(i, n, m, q)
  {
    if ReadAtEven(i, n, m, q) { ReadAtEvenScale(i, n, m, q); }
    EvenQuotient(i * n, m);
    Cleared(Scale(i, n, m));
  }

  // ----- which frames are accepted

  /** The sizes that are accepted: positive and within limits, with a stride of whole tiles, and not so
      flat or so narrow that a side of the output would vanish. */
  predicate SizeIsGood(f: FrameInfo, boxW: nat, boxH: nat) {
    && 2 <= f.w <= 4096 && 2 <= f.h <= 2304 && f.w <= f.stride <= 4096 && f.stride % 64 == 0
    && ((f.w <= boxW && f.h <= boxH) || (2 * f.w <= f.h * boxW && 2 * f.h <= f.w * boxH))
  }

  lemma AcceptedExactly(f: FrameInfo, v: Version)
    ensures Accepted(f, v.Model()) <==> SizeIsGood(f, v.BoxW(), v.BoxH())
  {
    if 0 < f.w && 0 < f.h { SidesRemain(f.w, f.h, v.BoxW(), v.BoxH()); }
  }

  lemma SidesRemain(w: nat, h: nat, boxW: nat, boxH: nat)
    requires 0 < w && 0 < h && 4 <= boxW && 4 <= boxH
    ensures var (ow, oh) := Fit(w, h, boxW, boxH);
            2 <= ow && 2 <= oh <==>
            2 <= w && 2 <= h && ((w <= boxW && h <= boxH) || (2 * w <= h * boxW && 2 * h <= w * boxH))
  {
    if w > boxW || h > boxH {
      if w * boxH > h * boxW {
        EvenAtLeastTwo(h, boxW, w);
        WideFits(w, h, boxW, boxH);
        NotNarrow(w, h, boxW, boxH);
      } else {
        EvenAtLeastTwo(w, boxH, h);
        TallFits(w, h, boxW, boxH);
        NotNarrow(h, w, boxH, boxW);
      }
    }
  }

  lemma EvenAtLeastTwo(i: nat, n: nat, m: nat)
    requires 0 < m
    ensures 2 <= ClearLow(Scale(i, n, m)) <==> 2 * m <= i * n
  {
    var q := Scale(i, n, m);
    DivBounds(i * n, m);
    if q >= 2 { MulMono(2, q, m); } else { MulMono(q + 1, 2, m); }
    Cleared(q);
    TwoOrLess(q);
  }

  lemma TwoOrLess(q: nat)
    ensures 2 <= ClearLow(q) <==> 2 <= q
  {
  }

  lemma NotNarrow(a: nat, b: nat, boxA: nat, boxB: nat)
    requires 0 < b && 4 <= boxA && a * boxB >= b * boxA
    ensures 2 * b <= a * boxB
    ensures 2 * a <= b * boxA && boxA < a ==> 2 <= b
  {
    MulMono(4, boxA, b);
    if b == 1 && boxA < a { assert b * boxA == boxA; }
  }

  /** What the mapped buffers must hold: whole tiles of both planes. */
  lemma CoversExactly(f: FrameInfo, v: Version, y: seq<byte>, vu: seq<byte>)
    requires SizeAccepted(f.w, f.h, f.stride)
    ensures Covers(f, v.Model(), y, vu) <==>
            && v.Start(f.yBuf, f.yPix) + (f.h + 15) / 16 * (f.stride / 64) * 1024 <= |y|
            && v.Start(f.vuBuf, f.vuPix) + (f.h / 2 + 7) / 8 * (f.stride / 64) * 512 <= |vu|
  {
  }

  // ----- where every output byte comes from

  lemma Mod4(sy: nat)
    ensures sy % 16 % 4 == sy % 4 && sy % 8 % 4 == sy % 4
  {
    DivUnique(sy, 4, 4 * (sy / 16) + sy % 16 / 4);
    DivUnique(sy, 4, 2 * (sy / 8) + sy % 8 / 4);
  }

  lemma LumaTileRow(v: Version, sy: nat, tx: nat)
    ensures v.Model().luma.Valid() && v.LumaRow(sy, tx) == v.Model().luma.StoredRow(sy % 16, tx)
  {
    Mod4(sy);
    if v.Five? { RowsByBlocks(sy % 16, tx); } else { PlainRowsInOrder(v.Model().luma, sy % 16, tx); }
  }

  lemma ChromaTileRow(v: Version, sy: nat, tx: nat)
    ensures v.Model().chroma.Valid() && v.ChromaRow(sy, tx) == v.Model().chroma.StoredRow(sy % 8, tx)
  {
    Mod4(sy);
    if v.Five? { RowsByBlocks(sy % 8, tx); } else { PlainRowsInOrder(v.Model().chroma, sy % 8, tx); }
  }

  lemma Addresses(v: Version, stride: nat, sy: nat, sx: nat, start: nat)
    ensures v.Model().luma.Valid() && v.Model().chroma.Valid()
    ensures v.LumaPlace(start, stride, sy, sx) == start + Addr(v.Model().luma, stride / 64, sy, sx)
    ensures v.ChromaPlace(start, stride, sy, sx) == start + Addr(v.Model().chroma, stride / 64, sy, sx)
  {
    LumaTileRow(v, sy, sx / 64);
    ChromaTileRow(v, sy, sx / 64);
    AddrIsTile(v.Model().luma, stride / 64, sy, sx);
    AddrIsTile(v.Model().chroma, stride / 64, sy, sx);
  }

  lemma JobSize(f: FrameInfo, v: Version, y: seq<byte>, vu: seq<byte>, ow: nat, oh: nat)
    requires Accepted(f, v.Model()) && Covers(f, v.Model(), y, vu)
    requires OutputSize(f.w, f.h, v.BoxW(), v.BoxH(), ow, oh)
    ensures Fit(f.w, f.h, v.Model().boxW, v.Model().boxH) == (ow, oh) && 2 <= ow && 2 <= oh
    ensures Scales(f, v.Model()) <==> f.w > v.BoxW() || f.h > v.BoxH()
    ensures |LumaOut(f, v.Model(), y, vu)| == oh * ow && |ChromaOut(f, v.Model(), y, vu)| == oh / 2 * ow
  {
    FitDescribed(f.w, f.h, v.BoxW(), v.BoxH(), ow, oh);
    FitInBox(f.w, f.h, v.BoxW(), v.BoxH());
    LumaSize(f, v.Model(), y, vu, ow, oh);
    ChromaSize(f, v.Model(), y, vu, ow, oh);
  }

  lemma SourceByte(s: Source, sy: nat, sx: nat)
    requires s.Valid() && sy < s.Height() && sx < s.Width()
    ensures s.off + Addr(s.layout, s.tiles, sy, sx) < |s.mem|
    ensures s.At(sy, sx) == s.mem[s.off + Addr(s.layout, s.tiles, sy, sx)]
  {
    AddrInRange(s.layout, s.tiles, s.bands, sy, sx);
  }

  /** Byte `i` of the luma plane, read from the place given by the layout. */
  lemma LumaFromSource(f: FrameInfo, g: Generation, y: seq<byte>, vu: seq<byte>, j: Job,
                       row: nat, col: nat, sy: nat, sx: nat, i: nat)
    requires g.Valid() && Accepted(f, g) && Covers(f, g, y, vu) && j == LumaJob(f, g, y)
    requires row < j.oh && col < j.ow && ReadAt(row, j.h, j.oh, sy) && ReadAt(col, j.w, j.ow, sx)
    requires i == row * j.ow + col
    ensures j.src.Valid() && j.src.off + Addr(j.src.layout, j.src.tiles, sy, sx) < |y|
    ensures i < |LumaOut(f, g, y, vu)|
    ensures LumaOut(f, g, y, vu)[i] == y[j.src.off + Addr(j.src.layout, j.src.tiles, sy, sx)]
  {
    JobsValid(f, g, y, vu);
    LumaByte(j, row, col, sy, sx);
    SourceByte(j.src, sy, sx);
    RowMajor(j.oh, j.ow, row, col);
  }

  /** Where the model reads the planes of a frame from. */
  lemma Sources(f: FrameInfo, v: Version, y: seq<byte>, vu: seq<byte>)
    requires 0 < f.w && 0 < f.h
    ensures var s := LumaJob(f, v.Model(), y).src;
            s.off == v.Start(f.yBuf, f.yPix) && s.layout == v.Model().luma && s.tiles == f.stride / 64
    ensures var s := ChromaJob(f, v.Model(), vu).src;
            s.off == v.Start(f.vuBuf, f.vuPix) && s.layout == v.Model().chroma && s.tiles == f.stride / 64
  {
  }

  lemma LumaFromBuffer(f: FrameInfo, v: Version, y: seq<byte>, vu: seq<byte>, ow: nat, oh: nat,
                       row: nat, col: nat, sy: nat, sx: nat, i: nat, at: nat)
    requires Accepted(f, v.Model()) && Covers(f, v.Model(), y, vu)
    requires OutputSize(f.w, f.h, v.BoxW(), v.BoxH(), ow, oh) && row < oh && col < ow
    requires ReadAt(row, f.h, oh, sy) && ReadAt(col, f.w, ow, sx) && i == row * ow + col
    requires v.Model().luma.Valid() && at == v.Start(f.yBuf, f.yPix) + Addr(v.Model().luma, f.stride / 64, sy, sx)
    ensures |LumaOut(f, v.Model(), y, vu)| == oh * ow && i < oh * ow && at < |y|
    ensures LumaOut(f, v.Model(), y, vu)[i] == y[at]
  {
    JobSize(f, v, y, vu, ow, oh);
    Sources(f, v, y, vu);
    var j := LumaJob(f, v.Model(), y);
    assert j.ow == ow && j.oh == oh && j.w == f.w && j.h == f.h;
    LumaFromSource(f, v.Model(), y, vu, j, row, col, sy, sx, i);
  }

  /** Every luma byte sent is the byte of the mapped buffer that holds the pixel at the scaled row and
      column. */
  lemma LumaBytes(f: FrameInfo, v: Version, y: seq<byte>, vu: seq<byte>, ow: nat, oh: nat,
                  row: nat, col: nat, sy: nat, sx: nat, i: nat, at: nat)
    requires Accepted(f, v.Model()) && Covers(f, v.Model(), y, vu)
    requires OutputSize(f.w, f.h, v.BoxW(), v.BoxH(), ow, oh) && row < oh && col < ow
    requires ReadAt(row, f.h, oh, sy) && ReadAt(col, f.w, ow, sx) && i == row * ow + col
    requires at == v.LumaPlace(v.Start(f.yBuf, f.yPix), f.stride, sy, sx)
    ensures |LumaOut(f, v.Model(), y, vu)| == oh * ow && i < oh * ow && at < |y|
    ensures LumaOut(f, v.Model(), y, vu)[i] == y[at]
  {
    Addresses(v, f.stride, sy, sx, v.Start(f.yBuf, f.yPix));
    LumaFromBuffer(f, v, y, vu, ow, oh, row, col, sy, sx, i, at);
  }

  lemma PairInRange(row: nat, c: nat, half: nat, oh: nat, ow: nat, i: nat)
    requires row < oh / 2 && c < ow / 2 && half < 2 && i == row * ow + (2 * c + half)
    ensures 2 * c + half < ow && i < oh / 2 * ow
  {
    RowMajor(oh / 2, ow, row, 2 * c + half);
  }

  lemma ChromaFromSource(f: FrameInfo, g: Generation, y: seq<byte>, vu: seq<byte>, j: Job,
                         row: nat, c: nat, half: nat, sy: nat, sx: nat, i: nat)
    requires g.Valid() && Accepted(f, g) && Covers(f, g, y, vu) && Scales(f, g) && j == ChromaJob(f, g, vu)
    requires row < j.oh / 2 && c < j.ow / 2 && half < 2
    requires ReadAt(row, j.h, j.oh, sy) && ReadAtEven(2 * c, j.w, j.ow, sx) && i == row * j.ow + (2 * c + half)
    ensures j.src.Valid() && j.src.off + Addr(j.src.layout, j.src.tiles, sy, sx + half) < |vu|
    ensures i < |ChromaOut(f, g, y, vu)|
    ensures ChromaOut(f, g, y, vu)[i] == vu[j.src.off + Addr(j.src.layout, j.src.tiles, sy, sx + half)]
  {
    JobsValid(f, g, y, vu);
    PairInRange(row, c, half, j.oh, j.ow, i);
    ChromaByte(j, row, c, half, sy, sx);
    SourceByte(j.src, sy, sx + half);
  }

  lemma ChromaFromBuffer(f: FrameInfo, v: Version, y: seq<byte>, vu: seq<byte>, ow: nat, oh: nat,
                         row: nat, c: nat, half: nat, sy: nat, sx: nat, i: nat, at: nat)
    requires Accepted(f, v.Model()) && Covers(f, v.Model(), y, vu) && (f.w > v.BoxW() || f.h > v.BoxH())
    requires OutputSize(f.w, f.h, v.BoxW(), v.BoxH(), ow, oh) && row < oh / 2 && c < ow / 2 && half < 2
    requires ReadAt(row, f.h, oh, sy) && ReadAtEven(2 * c, f.w, ow, sx) && i == row * ow + (2 * c + half)
    requires v.Model().chroma.Valid()
    requires at == v.Start(f.vuBuf, f.vuPix) + Addr(v.Model().chroma, f.stride / 64, sy, sx + half)
    ensures |ChromaOut(f, v.Model(), y, vu)| == oh / 2 * ow && i < oh / 2 * ow && at < |vu|
    ensures ChromaOut(f, v.Model(), y, vu)[i] == vu[at]
  {
    JobSize(f, v, y, vu, ow, oh);
    Sources(f, v, y, vu);
    PairInRange(row, c, half, oh, ow, i);
    var j := ChromaJob(f, v.Model(), vu);
    assert j.ow == ow && j.oh == oh && j.w == f.w && j.h == f.h;
    ChromaFromSource(f, v.Model(), y, vu, j, row, c, half, sy, sx, i);
  }

  /** Every chroma byte sent for a scaled frame is the byte of the mapped buffer that holds its half of
      the pair at the scaled row and the even scaled column. */
  lemma ScaledChromaBytes(f: FrameInfo, v: Version, y: seq<byte>, vu: seq<byte>, ow: nat, oh: nat,
                          row: nat, c: nat, half: nat, sy: nat, sx: nat, i: nat, at: nat)
    requires Accepted(f, v.Model()) && Covers(f, v.Model(), y, vu) && (f.w > v.BoxW() || f.h > v.BoxH())
    requires OutputSize(f.w, f.h, v.BoxW(), v.BoxH(), ow, oh) && row < oh / 2 && c < ow / 2 && half < 2
    requires ReadAt(row, f.h, oh, sy) && ReadAtEven(2 * c, f.w, ow, sx) && i == row * ow + (2 * c + half)
    requires at == v.ChromaPlace(v.Start(f.vuBuf, f.vuPix), f.stride, sy, sx + half)
    ensures |ChromaOut(f, v.Model(), y, vu)| == oh / 2 * ow && i < oh / 2 * ow && at < |vu|
    ensures ChromaOut(f, v.Model(), y, vu)[i] == vu[at]
  {
    Addresses(v, f.stride, sy, sx + half, v.Start(f.vuBuf, f.vuPix));
    ChromaFromBuffer(f, v, y, vu, ow, oh, row, c, half, sy, sx, i, at);
  }

  lemma PlainChromaFromBuffer(f: FrameInfo, v: Version, y: seq<byte>, vu: seq<byte>,
                              row: nat, col: nat, i: nat, at: nat)
    requires Accepted(f, v.Model()) && Covers(f, v.Model(), y, vu) && f.w <= v.BoxW() && f.h <= v.BoxH()
    requires row < f.h / 2 && col < f.w && i == row * f.w + col
    requires v.Model().chroma.Valid()
    requires at == v.Start(f.vuBuf, f.vuPix) + Addr(v.Model().chroma, f.stride / 64, row, col)
    ensures |ChromaOut(f, v.Model(), y, vu)| == f.h / 2 * f.w && i < f.h / 2 * f.w && at < |vu|
    ensures ChromaOut(f, v.Model(), y, vu)[i] == vu[at]
  {
    JobSize(f, v, y, vu, f.w, f.h);
    JobsValid(f, v.Model(), y, vu);
    Sources(f, v, y, vu);
    var s := ChromaJob(f, v.Model(), vu).src;
    UntiledPlaneAt(s, f.h / 2, f.w, row, col);
    SourceByte(s, row, col);
  }

  /** Every chroma byte sent for an unscaled frame is the byte of the mapped buffer for the same row and
      column. */
  lemma PlainChromaBytes(f: FrameInfo, v: Version, y: seq<byte>, vu: seq<byte>, row: nat, col: nat, i: nat, at: nat)
    requires Accepted(f, v.Model()) && Covers(f, v.Model(), y, vu) && f.w <= v.BoxW() && f.h <= v.BoxH()
    requires row < f.h / 2 && col < f.w && i == row * f.w + col
    requires at == v.ChromaPlace(v.Start(f.vuBuf, f.vuPix), f.stride, row, col)
    ensures |ChromaOut(f, v.Model(), y, vu)| == f.h / 2 * f.w && i < f.h / 2 * f.w && at < |vu|
    ensures ChromaOut(f, v.Model(), y, vu)[i] == vu[at]
  {
    Addresses(v, f.stride, row, col, v.Start(f.vuBuf, f.vuPix));
    PlainChromaFromBuffer(f, v, y, vu, row, col, i, at);
  }

  /** A frame of another size, or one whose planes cannot be mapped, is rejected. */
  lemma DeliveredRejects(f: FrameInfo, v: Version, y: Option<seq<byte>>, vu: Option<seq<byte>>, sc: Scratch, r: Outcome)
    requires sc.Valid(v.BoxW(), v.BoxH())
    requires Accepted(f, v.Model()) && y.Some? && vu.Some? ==> Covers(f, v.Model(), y.value, vu.value)
    requires Delivered(f, v.Model(), y, vu, sc, r)
    ensures r == Rejected <==> !SizeIsGood(f, v.BoxW(), v.BoxH()) || y.None? || vu.None?
  {
    AcceptedExactly(f, v);
  }

  /** What a routine that delivers returns and leaves in its scratch planes. */
  lemma DeliveredPlanes(f: FrameInfo, v: Version, y: seq<byte>, vu: seq<byte>, sc: Scratch, r: Outcome)
    requires Accepted(f, v.Model()) && Covers(f, v.Model(), y, vu)
    requires sc.Valid(v.BoxW(), v.BoxH()) && Delivered(f, v.Model(), Some(y), Some(vu), sc, r)
    ensures r.Planes? && OutputSize(f.w, f.h, v.BoxW(), v.BoxH(), r.ow, r.oh)
    ensures r.scaled <==> f.w > v.BoxW() || f.h > v.BoxH()
    ensures LumaOut(f, v.Model(), y, vu) <= (if r.scaled then sc.yscale else sc.ylin)[..]
    ensures ChromaOut(f, v.Model(), y, vu) <= (if r.scaled then sc.vuscale else sc.vulin)[..]
  {
    FitDescribed(f.w, f.h, v.BoxW(), v.BoxH(), r.ow, r.oh);
    JobSize(f, v, y, vu, r.ow, r.oh);
  }
}

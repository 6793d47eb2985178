/** The frame routine of each generation, from the frame descriptor to the planes that are sent. */
module FramePath {
  import opened Arith
  import opened Options
  import opened Bytes
  import opened TileLayout
  import opened FrameSpec
  import opened FrameLoops
  import TableSampler
  import MergeSampler

  /** The words of the frame descriptor that are read: 71, 72, 6, 2, 3, 7 and 8. */
  datatype FrameInfo = FrameInfo(w: nat, h: nat, stride: nat, yBuf: nat, yPix: nat, vuBuf: nat, vuPix: nat)

  /** Tile layouts, output box, and whether the pixel data may start past the buffer start. */
  datatype Generation = Generation(luma: Layout, chroma: Layout, boxW: nat, boxH: nat, offsets: bool) {
    predicate Valid() {
      && luma.Valid() && luma.rows == 16 && chroma.Valid() && chroma.rows == 8
      && 0 < boxW <= 1920 && boxW % 2 == 0 && 0 < boxH <= 1080 && boxH % 2 == 0
    }
  }

  const V1 := Generation(LUMA_PLAIN, CHROMA_PLAIN, 1280, 800, false)
  const V4 := Generation(LUMA_PLAIN, CHROMA_PLAIN, 1920, 1080, true)
  const V5 := Generation(LUMA_XOR, CHROMA_XOR, 1920, 1080, true)

  function PixelOffset(buf: nat, pix: nat): nat {
    if pix != 0 && pix > buf && pix - buf < 0x10_0000 then pix - buf else 0
  }

  predicate Accepted(f: FrameInfo, g: Generation) {
    SizeAccepted(f.w, f.h, f.stride) && var (ow, oh) := Fit(f.w, f.h, g.boxW, g.boxH); 2 <= ow && 2 <= oh
  }

  predicate Scales(f: FrameInfo, g: Generation)
    requires 0 < f.w && 0 < f.h
  {
    Fit(f.w, f.h, g.boxW, g.boxH) != (f.w, f.h)
  }

  function LumaJob(f: FrameInfo, g: Generation, y: seq<byte>): Job
    requires 0 < f.w && 0 < f.h
  {
    var (ow, oh) := Fit(f.w, f.h, g.boxW, g.boxH);
    var off := if g.offsets then PixelOffset(f.yBuf, f.yPix) else 0;
    Job(Source(y, off, g.luma, f.stride / 64, (f.h + 15) / 16), false, f.w, f.h, ow, oh)
  }

  function ChromaJob(f: FrameInfo, g: Generation, vu: seq<byte>): Job
    requires 0 < f.w && 0 < f.h
  {
    var (ow, oh) := Fit(f.w, f.h, g.boxW, g.boxH);
    var off := if g.offsets then PixelOffset(f.vuBuf, f.vuPix) else 0;
    Job(Source(vu, off, g.chroma, f.stride / 64, (f.h / 2 + 7) / 8), true, f.w, f.h, ow, oh)
  }

  /** The mapped buffers hold whole tiles of both planes. */
  predicate Covers(f: FrameInfo, g: Generation, y: seq<byte>, vu: seq<byte>)
    requires g.Valid() && SizeAccepted(f.w, f.h, f.stride)
  {
    LumaJob(f, g, y).src.Valid() && ChromaJob(f, g, vu).src.Valid()
  }

  /** Every accepted frame gives two jobs whose samples all exist and whose output fits the box. */
  lemma JobsValid(f: FrameInfo, g: Generation, y: seq<byte>, vu: seq<byte>)
    requires g.Valid() && Accepted(f, g) && Covers(f, g, y, vu)
    ensures LumaJob(f, g, y).Valid()
    ensures Scales(f, g) || f.w % 2 == 0 ==> ChromaJob(f, g, vu).Valid()
    ensures ChromaJob(f, g, vu).src.Valid() && f.h / 2 <= ChromaJob(f, g, vu).src.Height()
    ensures f.w <= ChromaJob(f, g, vu).src.Width()
  {
    FitInBox(f.w, f.h, g.boxW, g.boxH);
  }

  /** The luma plane sent for an accepted frame. */
  ghost function LumaOut(f: FrameInfo, g: Generation, y: seq<byte>, vu: seq<byte>): seq<byte>
    requires g.Valid() && Accepted(f, g) && Covers(f, g, y, vu)
  {
    JobsValid(f, g, y, vu);
    LumaJob(f, g, y).Plane()
  }

  /** The chroma plane sent: sampled pairs when scaling, otherwise the untiled plane. */
  ghost function ChromaOut(f: FrameInfo, g: Generation, y: seq<byte>, vu: seq<byte>): seq<byte>
    requires g.Valid() && Accepted(f, g) && Covers(f, g, y, vu)
  {
    JobsValid(f, g, y, vu);
    if Scales(f, g) then ChromaJob(f, g, vu).Plane() else UntiledPlane(ChromaJob(f, g, vu).src, f.h / 2, f.w)
  }

  /** The luma sent is always the nearest-neighbour scaling of the untiled plane. So is the chroma,
      except for an unscaled frame of odd width, whose chroma rows are sent whole. */
  lemma OutputIsScaledUntile(f: FrameInfo, g: Generation, y: seq<byte>, vu: seq<byte>)
    requires g.Valid() && Accepted(f, g) && Covers(f, g, y, vu)
    ensures var l := LumaJob(f, g, y);
            && l.Valid() && CanScale(UntiledPlane(l.src, f.h, f.w), f.w, f.h, l.oh, l.Pos(), l.oh)
            && LumaOut(f, g, y, vu) == ScaledPlane(UntiledPlane(l.src, f.h, f.w), f.w, f.h, l.oh, l.Pos(), l.oh)
    ensures var c := ChromaJob(f, g, vu);
            && c.src.Valid() && f.h / 2 <= c.src.Height() && f.w <= c.src.Width()
            && if Scales(f, g) || f.w % 2 == 0 then
                 && c.Valid() && CanScale(UntiledPlane(c.src, f.h / 2, f.w), f.w, f.h, c.oh, c.Pos(), c.oh / 2)
                 && ChromaOut(f, g, y, vu) ==
                      ScaledPlane(UntiledPlane(c.src, f.h / 2, f.w), f.w, f.h, c.oh, c.Pos(), c.oh / 2)
               else ChromaOut(f, g, y, vu) == UntiledPlane(c.src, f.h / 2, f.w)
  {
    JobsValid(f, g, y, vu);
    var l, c := LumaJob(f, g, y), ChromaJob(f, g, vu);
    l.PlaneIsScaledUntile();
    if Scales(f, g) || f.w % 2 == 0 {
      c.PlaneIsScaledUntile();
      if !Scales(f, g) { PlaneSameSize(c); }
    }
  }

  lemma LumaSize(f: FrameInfo, g: Generation, y: seq<byte>, vu: seq<byte>, ow: nat, oh: nat)
    requires g.Valid() && Accepted(f, g) && Covers(f, g, y, vu) && (ow, oh) == Fit(f.w, f.h, g.boxW, g.boxH)
    ensures |LumaOut(f, g, y, vu)| == oh * ow
  {
    JobsValid(f, g, y, vu);
  }

  lemma ChromaSize(f: FrameInfo, g: Generation, y: seq<byte>, vu: seq<byte>, ow: nat, oh: nat)
    requires g.Valid() && Accepted(f, g) && Covers(f, g, y, vu) && (ow, oh) == Fit(f.w, f.h, g.boxW, g.boxH)
    ensures |ChromaOut(f, g, y, vu)| == oh / 2 * ow
  {
    JobsValid(f, g, y, vu);
  }

  /** The header announces `ow * oh / 2` chroma bytes; exactly that many were written for this
      frame if and only if the height is even (a scaled height always is). */
  lemma ChromaCountExact(f: FrameInfo, g: Generation, y: seq<byte>, vu: seq<byte>)
    requires g.Valid() && Accepted(f, g) && Covers(f, g, y, vu)
    ensures var (ow, oh) := Fit(f.w, f.h, g.boxW, g.boxH);
            |ChromaOut(f, g, y, vu)| == ow * oh / 2 <==> Scales(f, g) || f.h % 2 == 0
  {
    FitInBox(f.w, f.h, g.boxW, g.boxH);
    var (ow, oh) := Fit(f.w, f.h, g.boxW, g.boxH);
    ChromaSize(f, g, y, vu, ow, oh);
    HalfPlane(ow, oh);
  }

  /** It does happen: an unscaled 64x3 frame announces 96 chroma bytes and produces 64. */
  lemma ChromaCountFalls(y: seq<byte>, vu: seq<byte>)
    requires Covers(FrameInfo(64, 3, 64, 0, 0, 0, 0), V5, y, vu)
    ensures var f := FrameInfo(64, 3, 64, 0, 0, 0, 0);
            Accepted(f, V5) && Fit(f.w, f.h, 1920, 1080) == (64, 3) && |ChromaOut(f, V5, y, vu)| == 64 < 64 * 3 / 2
  {
    ChromaSize(FrameInfo(64, 3, 64, 0, 0, 0, 0), V5, y, vu, 64, 3);
  }

  lemma HalfPlane(ow: nat, oh: nat)
    requires 2 <= ow
    ensures oh / 2 * ow == ow * oh / 2 <==> oh % 2 == 0
    ensures oh / 2 * ow <= ow * oh / 2
  {
    var k := oh / 2;
    assert ow * oh == 2 * (k * ow) + oh % 2 * ow by {
      assert oh == 2 * k + oh % 2;
      assert ow * (2 * k + oh % 2) == 2 * (k * ow) + oh % 2 * ow;
    }
  }

  // ----- the routines

  class Scratch {
    const ylin: array<byte>
    const vulin: array<byte>
    const yscale: array<byte>
    const vuscale: array<byte>

    constructor (boxW: nat, boxH: nat)
      ensures Valid(boxW, boxH) && fresh(ylin) && fresh(vulin) && fresh(yscale) && fresh(vuscale)
    {
      ylin := new byte[MAX_WIDTH * MAX_HEIGHT];
      vulin := new byte[MAX_WIDTH * MAX_HEIGHT / 2];
      yscale := new byte[boxW * boxH];
      vuscale := new byte[boxW * boxH / 2];
    }

    ghost predicate Valid(boxW: nat, boxH: nat) {
      && ylin.Length == MAX_WIDTH * MAX_HEIGHT && vulin.Length == MAX_WIDTH * MAX_HEIGHT / 2
      && yscale.Length == boxW * boxH && vuscale.Length == boxW * boxH / 2
      && ylin != vulin && ylin != yscale && ylin != vuscale && vulin != yscale && vulin != vuscale && yscale != vuscale
    }
  }

  /** What the routine returns: failure, or the output size and which scratch planes hold it. */
  datatype Outcome = Rejected | Planes(ow: nat, oh: nat, scaled: bool)

  ghost predicate Holds(buf: array<byte>, plane: seq<byte>)
    reads buf
  {
    plane <= buf[..]
  }

  ghost predicate Delivered(f: FrameInfo, g: Generation, y: Option<seq<byte>>, vu: Option<seq<byte>>,
                            sc: Scratch, r: Outcome)
    requires g.Valid()
    requires Accepted(f, g) && y.Some? && vu.Some? ==> Covers(f, g, y.value, vu.value)
    reads sc.ylin, sc.vulin, sc.yscale, sc.vuscale
  {
    if Accepted(f, g) && y.Some? && vu.Some? then
      && r.Planes? && (r.ow, r.oh) == Fit(f.w, f.h, g.boxW, g.boxH) && r.scaled == Scales(f, g)
      && Holds(if r.scaled then sc.yscale else sc.ylin, LumaOut(f, g, y.value, vu.value))
      && Holds(if r.scaled then sc.vuscale else sc.vulin, ChromaOut(f, g, y.value, vu.value))
    else r == Rejected
  }

  /** All scratch writes of an accepted frame stay inside the scratch planes. */
  lemma RoomForPlanes(f: FrameInfo, g: Generation)
    requires g.Valid() && Accepted(f, g)
    ensures f.h * f.w <= MAX_WIDTH * MAX_HEIGHT && f.h / 2 * f.w <= MAX_WIDTH * MAX_HEIGHT / 2
    ensures var (ow, oh) := Fit(f.w, f.h, g.boxW, g.boxH);
            oh * ow <= g.boxW * g.boxH && oh / 2 * ow <= g.boxW * g.boxH / 2
  {
    FitInBox(f.w, f.h, g.boxW, g.boxH);
    var (ow, oh) := Fit(f.w, f.h, g.boxW, g.boxH);
    RoomFor(f.h, f.w, MAX_HEIGHT, MAX_WIDTH);
    RoomFor(oh, ow, g.boxH, g.boxW);
  }

  lemma RoomFor(h: nat, w: nat, maxH: nat, maxW: nat)
    requires h <= maxH && w <= maxW
    ensures h * w <= maxW * maxH && h / 2 * w <= maxW * maxH / 2
  {
    MulMono(h, maxH, w);
    MulMono(w, maxW, maxH);
    var k := h / 2;
    MulMono(2 * k, h, w);
    assert 2 * k * w == 2 * (k * w);
  }

  /** Version 5: table sampling when scaling, plain untiling otherwise. */
  method Nv21FromFrameV5(f: FrameInfo, y: Option<seq<byte>>, vu: Option<seq<byte>>, sc: Scratch) returns (r: Outcome)
    requires sc.Valid(1920, 1080) && (Accepted(f, V5) && y.Some? && vu.Some? ==> Covers(f, V5, y.value, vu.value))
    modifies sc.ylin, sc.vulin, sc.yscale, sc.vuscale
    ensures Delivered(f, V5, y, vu, sc, r)
  {
    if !Accepted(f, V5) || y.None? || vu.None? { return Rejected; }
    JobsValid(f, V5, y.value, vu.value);
    RoomForPlanes(f, V5);
    var l, c := LumaJob(f, V5, y.value), ChromaJob(f, V5, vu.value);
    if Scales(f, V5) {
      TableSampler.SamplePlane(l, sc.yscale);
      TableSampler.SamplePlane(c, sc.vuscale);
    } else {
      UntileBoth(l, c, sc);
      PlaneSameSize(l);
    }
    r := Planes(l.ow, l.oh, Scales(f, V5));
  }

  /** Version 4: the fused merge when scaling, plain untiling otherwise. */
  method Nv21FromFrameV4(f: FrameInfo, y: Option<seq<byte>>, vu: Option<seq<byte>>, sc: Scratch) returns (r: Outcome)
    requires sc.Valid(1920, 1080) && (Accepted(f, V4) && y.Some? && vu.Some? ==> Covers(f, V4, y.value, vu.value))
    modifies sc.ylin, sc.vulin, sc.yscale, sc.vuscale
    ensures Delivered(f, V4, y, vu, sc, r)
  {
    if !Accepted(f, V4) || y.None? || vu.None? { return Rejected; }
    JobsValid(f, V4, y.value, vu.value);
    RoomForPlanes(f, V4);
    var l, c := LumaJob(f, V4, y.value), ChromaJob(f, V4, vu.value);
    if Scales(f, V4) {
      MergeSampler.MergePlane(l, sc.yscale);
      MergeSampler.MergePlane(c, sc.vuscale);
    } else {
      UntileBoth(l, c, sc);
      PlaneSameSize(l);
    }
    r := Planes(l.ow, l.oh, Scales(f, V4));
  }

  /** Version 1, up to the colour conversion: always untile, then scale the linear planes. */
  method Nv21FromFrameV1(f: FrameInfo, y: Option<seq<byte>>, vu: Option<seq<byte>>, sc: Scratch) returns (r: Outcome)
    requires sc.Valid(1280, 800) && (Accepted(f, V1) && y.Some? && vu.Some? ==> Covers(f, V1, y.value, vu.value))
    modifies sc.ylin, sc.vulin, sc.yscale, sc.vuscale
    ensures Delivered(f, V1, y, vu, sc, r)
  {
    if !Accepted(f, V1) || y.None? || vu.None? { return Rejected; }
    JobsValid(f, V1, y.value, vu.value);
    RoomForPlanes(f, V1);
    var l, c := LumaJob(f, V1, y.value), ChromaJob(f, V1, vu.value);
    UntileBoth(l, c, sc);
    if Scales(f, V1) {
      ScaleLinear(l, sc.ylin, sc.yscale);
      ScaleLinear(c, sc.vulin, sc.vuscale);
    } else {
      PlaneSameSize(l);
    }
    r := Planes(l.ow, l.oh, Scales(f, V1));
  }

  method UntileBoth(l: Job, c: Job, sc: Scratch)
    requires sc.ylin != sc.vulin && l.src.Valid() && c.src.Valid()
    requires l.src.Width() <= MAX_WIDTH && l.h <= MAX_HEIGHT && c.src.Width() <= MAX_WIDTH && c.h <= MAX_HEIGHT
    requires 0 < l.w <= l.src.Width() && l.h <= l.src.Height() && l.h * l.w <= sc.ylin.Length
    requires 0 < c.w <= c.src.Width() && c.h / 2 <= c.src.Height() && c.h / 2 * c.w <= sc.vulin.Length
    modifies sc.ylin, sc.vulin
    ensures Holds(sc.ylin, UntiledPlane(l.src, l.h, l.w)) && Holds(sc.vulin, UntiledPlane(c.src, c.h / 2, c.w))
  {
    UntilePlane(l.src, l.w, l.h, sc.ylin);
    UntilePlane(c.src, c.w, c.h / 2, sc.vulin);
  }
}

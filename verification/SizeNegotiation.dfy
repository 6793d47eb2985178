/** How the capture side agrees on a size: the encoder's size is fitted into 1920x1080, and each
    captured frame is then fitted into the encoder's size. */
module SizeNegotiation {
  import opened Arith

  const MAX_CAPTURE_W := 1920
  const MAX_CAPTURE_H := 1080

  /** `a / d` rounded to the nearest integer, halves up. */
  function RoundDiv(a: nat, d: nat): nat
    requires 0 < d
  {
    (a + d / 2) / d
  }

  /** The size before the low bits are cleared. */
  function RoundedFit(w: nat, h: nat, maxW: nat, maxH: nat): (nat, nat)
    requires 0 < w && 0 < h
  {
    if RoundDiv(h * maxW, w) > maxH then (RoundDiv(w * maxH, h), maxH) else (maxW, RoundDiv(h * maxW, w))
  }

  function FitDims(w: nat, h: nat, maxW: nat, maxH: nat): (nat, nat)
    requires 0 < w && 0 < h
  {
    var (dw, dh) := RoundedFit(w, h, maxW, maxH);
    (ClearLow(dw), ClearLow(dh))
  }

  /** `src_width_check`. */
  predicate SourceFits(w: nat, h: nat, maxW: nat, maxH: nat) { w <= maxW && h <= maxH }

  /** The size to bring a picture to for an encoder, or a box, of the given size. */
  function FitCaptureSize(w: nat, h: nat, maxW: nat, maxH: nat): (nat, nat)
    requires 0 < w && 0 < h
  {
    if SourceFits(w, h, maxW, maxH) then (w, h) else FitDims(w, h, maxW, maxH)
  }

  /** The encoder's size on macOS. */
  function EncoderSize(w: nat, h: nat): (nat, nat)
    requires 0 < w && 0 < h
  {
    FitCaptureSize(w, h, MAX_CAPTURE_W, MAX_CAPTURE_H)
  }

  lemma RoundBounds(a: nat, d: nat)
    requires 0 < d
    ensures d * RoundDiv(a, d) <= a + d / 2 < d * RoundDiv(a, d) + d
  {
    DivBounds(a + d / 2, d);
  }

  lemma RoundMono(a: nat, b: nat, d: nat)
    requires 0 < d && a <= b
    ensures RoundDiv(a, d) <= RoundDiv(b, d)
  {
    DivMono(a + d / 2, b + d / 2, d);
  }

  lemma RoundExact(q: nat, d: nat)
    requires 0 < d
    ensures RoundDiv(q * d, d) == q
  {
    DivUnique(q * d + d / 2, d, q);
  }

  lemma RoundLess(a: nat, d: nat, q: nat)
    requires 0 < d && a + d / 2 < q * d
    ensures RoundDiv(a, d) < q
  {
    DivLess(a + d / 2, d, q);
  }

  /** Shrinking one side shrinks the other: scaling `n` by `m / d` with `m <= d` gives at most `n`. */
  lemma RoundShrinks(n: nat, m: nat, d: nat)
    requires 0 < d && m <= d
    ensures RoundDiv(n * m, d) <= n
  {
    MulMono(m, d, n);
    RoundMono(n * m, n * d, d);
    RoundExact(n, d);
  }

  lemma RoundGrows(n: nat, m: nat, d: nat)
    requires 0 < d <= m
    ensures RoundDiv(n * m, d) >= n
  {
    MulMono(d, m, n);
    RoundMono(n * d, n * m, d);
    RoundExact(n, d);
  }

  lemma RoundedWithin(w: nat, h: nat, maxW: nat, maxH: nat)
    requires 0 < w && 0 < h && !SourceFits(w, h, maxW, maxH)
    ensures var (rw, rh) := RoundedFit(w, h, maxW, maxH); rw <= maxW && rh <= maxH && rw <= w && rh <= h
  {
    var dh := RoundDiv(h * maxW, w);
    if w <= maxW { RoundGrows(h, maxW, w); } else { RoundShrinks(h, maxW, w); }
    if dh > maxH {
      OtherSideFits(w, h, maxW, maxH);
      RoundShrinks(w, maxH, h);
    }
  }

  /** For any nonempty source exceeding the box, the fit lies in the box and in the source, with
      even sides. */
  lemma FitWithin(w: nat, h: nat, maxW: nat, maxH: nat)
    requires 0 < w && 0 < h && !SourceFits(w, h, maxW, maxH)
    ensures var (dw, dh) := FitDims(w, h, maxW, maxH);
            dw <= maxW && dh <= maxH && dw <= w && dh <= h && dw % 2 == 0 && dh % 2 == 0
  {
    RoundedWithin(w, h, maxW, maxH);
    var (rw, rh) := RoundedFit(w, h, maxW, maxH);
    Cleared(rw);
    Cleared(rh);
  }

  /** A picture is left at its own size if and only if it fits the box; whatever it is brought to fits
      the box and is no larger than itself. Otherwise both sides are even, and each is the rounded side
      or one less. */
  lemma FitCaptureExactly(w: nat, h: nat, maxW: nat, maxH: nat)
    requires 0 < w && 0 < h
    ensures FitCaptureSize(w, h, maxW, maxH) == (w, h) <==> w <= maxW && h <= maxH
    ensures var (dw, dh) := FitCaptureSize(w, h, maxW, maxH); dw <= maxW && dh <= maxH && dw <= w && dh <= h
    ensures !(w <= maxW && h <= maxH) ==>
              var (dw, dh) := FitCaptureSize(w, h, maxW, maxH);
              var (rw, rh) := RoundedFit(w, h, maxW, maxH);
              dw % 2 == 0 && dh % 2 == 0 && dw <= rw <= dw + 1 && dh <= rh <= dh + 1
  {
    if !(w <= maxW && h <= maxH) {
      FitWithin(w, h, maxW, maxH);
      var (rw, rh) := RoundedFit(w, h, maxW, maxH);
      Cleared(rw);
      Cleared(rh);
    }
  }

  /** If the height overflows, then fitting by height keeps the width in the box. */
  lemma OtherSideFits(w: nat, h: nat, maxW: nat, maxH: nat)
    requires 0 < w && 0 < h && RoundDiv(h * maxW, w) > maxH
    ensures RoundDiv(w * maxH, h) <= maxW
  {
    var dh := RoundDiv(h * maxW, w);
    RoundBounds(h * maxW, w);
    MulMono(maxH + 1, dh, w);
    assert w * (maxH + 1) == w * maxH + w;
    assert (maxW + 1) * h == h * maxW + h;
    RoundLess(w * maxH, h, maxW + 1);
  }

  /** Before the low bits are cleared, one side fills the box and the other is within half a pixel of
      the source's shape. */
  lemma RoundedFitKeepsShape(w: nat, h: nat, maxW: nat, maxH: nat)
    requires 0 < w && 0 < h
    ensures var (rw, rh) := RoundedFit(w, h, maxW, maxH);
            || (rw == maxW && 2 * (w * rh) <= 2 * (h * maxW) + w && 2 * (h * maxW) < 2 * (w * rh) + w + 1)
            || (rh == maxH && 2 * (h * rw) <= 2 * (w * maxH) + h && 2 * (w * maxH) < 2 * (h * rw) + h + 1)
  {
    RoundBounds(h * maxW, w);
    RoundBounds(w * maxH, h);
  }

  // ----- fitting twice

  /** When re-fitting a frame into the encoder's size gives exactly that size. A source that fills the
      box's width needs an even rounded height; one that fills its height must not lose more than half
      a row's worth of shape to the width's cleared low bit. */
  predicate Stable(w: nat, h: nat)
    requires 0 < w && 0 < h
  {
    var dh := RoundDiv(h * MAX_CAPTURE_W, w);
    if dh <= MAX_CAPTURE_H then dh % 2 == 0
    else MAX_CAPTURE_H * w <= h * ClearLow(RoundDiv(w * MAX_CAPTURE_H, h)) + w / 2
  }

  lemma RoundReaches(a: nat, d: nat, q: nat)
    requires 0 < d
    ensures RoundDiv(a, d) >= q <==> q * d <= a + d / 2
  {
    RoundBounds(a, d);
    if RoundDiv(a, d) >= q { MulMono(q, RoundDiv(a, d), d); } else { MulMono(RoundDiv(a, d) + 1, q, d); }
  }

  /** A captured frame is never brought to more than the encoder's size; it gets exactly that size
      if and only if the source is stable. */
  lemma RefitAgainstEncoder(w: nat, h: nat)
    requires 0 < w && 0 < h && !SourceFits(w, h, MAX_CAPTURE_W, MAX_CAPTURE_H)
    ensures var (ew, eh) := EncoderSize(w, h);
            var (dw, dh) := FitCaptureSize(w, h, ew, eh);
            dw <= ew && dh <= eh && dw <= w && dh <= h && ((dw, dh) == (ew, eh) <==> Stable(w, h))
  {
    var (ew, eh) := EncoderSize(w, h);
    FitWithin(w, h, MAX_CAPTURE_W, MAX_CAPTURE_H);
    FitWithin(w, h, ew, eh);
    var dh := RoundDiv(h * MAX_CAPTURE_W, w);
    if dh > MAX_CAPTURE_H {
      RoundReaches(h * ew, w, MAX_CAPTURE_H);
    } else if dh % 2 == 1 {
      OddHeightShrinks(w, h, dh);
    }
  }

  /** With an odd rounded height, the second fit goes by height and loses at least one column. */
  lemma OddHeightShrinks(w: nat, h: nat, dh: nat)
    requires 0 < w && 0 < h && dh == RoundDiv(h * MAX_CAPTURE_W, w) <= MAX_CAPTURE_H && 1 <= dh
    ensures RoundDiv(w * (dh - 1), h) < MAX_CAPTURE_W
  {
    LowMeansWide(w, h);
    RoundBounds(h * MAX_CAPTURE_W, w);
    OneLess(w, dh);
    RoundLess(w * (dh - 1), h, MAX_CAPTURE_W);
  }

  lemma OneLess(w: nat, n: nat)
    requires 1 <= n
    ensures w * (n - 1) == w * n - w
  {
  }

  lemma LowMeansWide(w: nat, h: nat)
    requires 0 < w && RoundDiv(h * MAX_CAPTURE_W, w) <= MAX_CAPTURE_H
    ensures h < w
  {
    if w <= h { RoundGrows(MAX_CAPTURE_W, h, w); }
  }

  /** Landscape sources whose first rounded size was already even are stable. */
  lemma LandscapeStable(w: nat, h: nat)
    requires 0 < h <= w && !SourceFits(w, h, MAX_CAPTURE_W, MAX_CAPTURE_H)
    requires var (rw, rh) := RoundedFit(w, h, MAX_CAPTURE_W, MAX_CAPTURE_H); rw % 2 == 0 && rh % 2 == 0
    ensures Stable(w, h)
  {
    if RoundDiv(h * MAX_CAPTURE_W, w) > MAX_CAPTURE_H { RoundBounds(w * MAX_CAPTURE_H, h); }
  }

  /** A portrait or square source is always fitted by its height. */
  lemma PortraitIsTall(w: nat, h: nat)
    requires 0 < w <= h
    ensures RoundDiv(h * MAX_CAPTURE_W, w) > MAX_CAPTURE_H
  {
    RoundGrows(MAX_CAPTURE_W, h, w);
  }

  /** A portrait source whose first rounded width was odd is never stable. */
  lemma PortraitOddUnstable(w: nat, h: nat)
    requires 0 < w <= h && RoundDiv(w * MAX_CAPTURE_H, h) % 2 == 1
    ensures !Stable(w, h)
  {
    PortraitIsTall(w, h);
    var dw := RoundDiv(w * MAX_CAPTURE_H, h);
    RoundBounds(w * MAX_CAPTURE_H, h);
    OneLess(h, dw);
    if w == h { RoundExact(MAX_CAPTURE_H, h); }
  }

  /** Not every source is stable: a 3024x1964 screen is encoded at 1662x1080 but converted at
      1662x1078, and a portrait one can lose rows even though its rounded size was even. */
  lemma UnstableExamples()
    ensures EncoderSize(3024, 1964) == (1662, 1080) && FitCaptureSize(3024, 1964, 1662, 1080) == (1662, 1078)
    ensures RoundedFit(541, 1081, 1920, 1080) == (540, 1080)
    ensures EncoderSize(541, 1081) == (540, 1080) && FitCaptureSize(541, 1081, 540, 1080) == (540, 1078)
  {
    assert RoundDiv(1964 * 1920, 3024) == 1247 && RoundDiv(3024 * 1080, 1964) == 1663;
    assert RoundDiv(1964 * 1662, 3024) == 1079;
    assert RoundedFit(3024, 1964, 1662, 1080) == (1662, 1079) && RoundedFit(541, 1081, 540, 1080) == (540, 1079) by {
      assert RoundDiv(1081 * 540, 541) == 1079;
    }
    assert RoundDiv(1081 * 1920, 541) == 3836 && RoundDiv(541 * 1080, 1081) == 540 && RoundDiv(1081 * 540, 541) == 1079;
  }
}

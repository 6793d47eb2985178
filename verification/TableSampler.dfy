/** Version 5: a table holds, for every row of a band and every output column, the offset of the
    sampled byte within the band; rows are then gathered through the table. */
module TableSampler {
  import opened Arith
  import opened Bytes
  import opened Buffers
  import opened TileLayout
  import opened FrameSpec
  import opened FrameLoops

  ghost predicate TableOf(lut: array2<nat>, l: Layout, m: seq<nat>)
    requires l.Valid()
    reads lut
  {
    && lut.Length0 == l.rows && |m| <= lut.Length1
    && forall ty, c :: 0 <= ty < l.rows && 0 <= c < |m| ==> lut[ty, c] == BandOffset(l, ty, m[c])
  }

  /** A table entry fits in 32 bits. */
  lemma EntryFits(l: Layout, ty: nat, sx: nat)
    requires l.Valid() && ty < l.rows && sx < MAX_WIDTH
    ensures BandOffset(l, ty, sx) < 0x1_0000_0000
  {
    StoredRowPermutes(l, ty, sx / 64);
  }

  /** The inner loop: one column of the table. */
  method FillColumn(l: Layout, lut: array2<nat>, col: nat, sx: nat)
    requires l.Valid() && lut.Length0 == l.rows && col < lut.Length1 && sx < MAX_WIDTH
    modifies lut
    ensures forall ty :: 0 <= ty < l.rows ==> lut[ty, col] == BandOffset(l, ty, sx)
    ensures forall ty, c :: 0 <= ty < l.rows && 0 <= c < lut.Length1 && c != col ==> lut[ty, c] == old(lut[ty, c])
  {
    var tx, k := sx / 64, sx % 64;
    for ty := 0 to l.rows
      invariant forall t :: 0 <= t < ty ==> lut[t, col] == BandOffset(l, t, sx)
      invariant forall t, c :: 0 <= t < l.rows && 0 <= c < lut.Length1 && c != col ==> lut[t, c] == old(lut[t, c])
    {
      EntryFits(l, ty, sx);
      lut[ty, col] := Wrap32(l.TileStart(tx) + l.StoredRow(ty, tx) * 64 + k);
    }
  }

  method BuildTable(l: Layout, chroma: bool, w: nat, ow: nat, ghost m: seq<nat>) returns (lut: array2<nat>)
    requires l.Valid() && 0 < ow <= w <= MAX_WIDTH && ow <= 1920 && MapOf(m, chroma, w, ow)
    ensures fresh(lut) && lut.Length1 == (if chroma then 960 else 1920) && TableOf(lut, l, m)
  {
    lut := new nat[l.rows, Entries(chroma, 1920)];
    var n := Entries(chroma, ow);
    for col := 0 to n
      invariant fresh(lut)
      invariant forall ty, c :: 0 <= ty < l.rows && 0 <= c < col ==> lut[ty, c] == BandOffset(l, ty, m[c])
    {
      MapEntryFits(chroma, w, ow, col);
      FillColumn(l, lut, col, SourceColumn(chroma, w, ow, col));
    }
  }

  /** The source column computed in 32-bit arithmetic. */
  function SourceColumn(chroma: bool, w: nat, ow: nat, col: nat): (sx: nat)
    requires 0 < ow <= w <= MAX_WIDTH && col < Entries(chroma, ow)
    ensures sx == MapEntry(chroma, w, ow, col)
  {
    MapEntryFits(chroma, w, ow, col);
    assert 2 * col * w == col * 2 * w;
    if chroma then ClearLow(Wrap32(col * 2 * w) / ow) else Wrap32(col * w) / ow
  }

  /** Where the band that holds source row `sy` starts. */
  function BandBase(s: Source, sy: nat): nat {
    s.off + s.layout.TileStart(s.layout.BandOf(sy) * s.tiles)
  }

  /** A sampled byte is found at its band's start plus its table entry. */
  lemma TableByte(s: Source, sy: nat, sx: nat)
    requires s.Valid() && sy < s.Height() && sx < s.Width()
    ensures BandBase(s, sy) + BandOffset(s.layout, s.layout.InBand(sy), sx) < |s.mem|
    ensures s.At(sy, sx) == s.mem[BandBase(s, sy) + BandOffset(s.layout, s.layout.InBand(sy), sx)]
  {
    AddrInRange(s.layout, s.tiles, s.bands, sy, sx);
  }

  /** The second byte of a chroma pair is right after the first. */
  lemma PairAdjacent(l: Layout, ty: nat, sx: nat)
    requires l.Valid() && sx % 2 == 0
    ensures BandOffset(l, ty, sx + 1) == BandOffset(l, ty, sx) + 1
  {
    assert (sx + 1) / 64 == sx / 64 && (sx + 1) % 64 == sx % 64 + 1;
  }

  lemma TableRowLeads(s: Source, chroma: bool, m: seq<nat>, pos: seq<nat>, sy: nat, offsets: seq<nat>)
    requires s.Valid() && sy < s.Height() && Expands(m, pos, chroma) && Below(pos, s.Width())
    requires chroma ==> forall c :: 0 <= c < |m| ==> m[c] % 2 == 0
    requires |offsets| == |m|
    requires forall c :: 0 <= c < |m| ==> offsets[c] == BandOffset(s.layout, s.layout.InBand(sy), m[c])
    ensures Leads(s.mem, BandBase(s, sy), offsets, SampledRow(s, sy, pos), chroma)
  {
    var whole, base := SampledRow(s, sy, pos), BandBase(s, sy);
    forall c | 0 <= c < |offsets|
      ensures base + offsets[c] < |s.mem| && s.mem[base + offsets[c]] == whole[Done(chroma, c)]
      ensures chroma ==> base + offsets[c] + 1 < |s.mem| && s.mem[base + offsets[c] + 1] == whole[Done(chroma, c) + 1]
    {
      assert pos[Done(chroma, c)] == m[c];
      TableByte(s, sy, m[c]);
      if chroma {
        assert pos[Done(chroma, c) + 1] == m[c] + 1;
        TableByte(s, sy, m[c] + 1);
        PairAdjacent(s.layout, s.layout.InBand(sy), m[c]);
      }
    }
  }

  /** One output row, read through the table's line for its source row. */
  method SampleRow(j: Job, row: nat, sy: nat, m: seq<nat>, lut: array2<nat>, dst: array<byte>, base: nat)
    requires j.Valid() && row < j.Rows() && sy == Scale(row, j.h, j.oh) < j.SrcRows() && Below(j.Pos(), j.src.Width())
    requires base + j.ow <= dst.Length && TableOf(lut, j.src.layout, m)
    requires Expands(m, j.Pos(), j.chroma) && (j.chroma ==> forall c :: 0 <= c < |m| ==> m[c] % 2 == 0)
    modifies dst
    ensures dst[..] == Splice(old(dst[..]), base, j.PlaneRow(row))
  {
    BandFits32(j.src, sy);
    var ty := j.src.layout.InBand(sy);
    ghost var whole := j.PlaneRow(row);
    var offsets :=
      seq(|m|, c requires 0 <= c < |m| && ty < lut.Length0 && |m| <= lut.Length1 reads lut => lut[ty, c]);
    var srcrow := j.src.off + Wrap32(j.src.layout.TileStart(j.src.layout.BandOf(sy) * j.src.tiles));
    TableRowLeads(j.src, j.chroma, m, j.Pos(), sy, offsets);
    GatherRow(j.chroma, j.src.mem, srcrow, offsets, whole, dst, base);
  }

  /** Writes exactly the plane of the job, reading only sampled bytes from the tiles. */
  method SamplePlane(j: Job, dst: array<byte>)
    requires j.Valid() && j.Rows() * j.ow <= dst.Length
    modifies dst
    ensures dst[..] == Splice(old(dst[..]), 0, j.Plane())
  {
    var m := BuildMap(j.chroma, j.w, j.ow, 1920);
    MapExpands(j, m);
    MapEven(m, j.chroma, j.w, j.ow);
    var lut := BuildTable(j.src.layout, j.chroma, j.w, j.ow, m);
    ghost var pre := dst[..];
    SpliceNothing(pre, 0);
    for row := 0 to j.Rows()
      invariant row * j.ow <= dst.Length && TableOf(lut, j.src.layout, m)
      invariant dst[..] == Splice(pre, 0, j.PlaneTo(row))
    {
      PlaneGrows(j, row, pre);
      var sy, base := RowPlaces(j, row);
      SampleRow(j, row, sy, m, lut, dst, base);
    }
  }

  lemma BandFits32(s: Source, sy: nat)
    requires s.Valid() && s.tiles <= 64 && sy < MAX_HEIGHT
    ensures s.off + Wrap32(s.layout.TileStart(s.layout.BandOf(sy) * s.tiles)) == BandBase(s, sy)
  {
    var band := s.layout.BandOf(sy);
    assert band <= 288;
    MulMono(band, 288, s.tiles);
  }
}

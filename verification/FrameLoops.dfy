/** The in-place loops of the three generations of the frame routine, each proved to write
    exactly the plane that `FrameSpec` describes and nothing beyond it. */
module FrameLoops {
  import opened Arith
  import opened Bytes
  import opened Buffers
  import opened TileLayout
  import opened FrameSpec

  // ----- untiling a whole plane (every generation)

  /** Byte `k` of the tile row that holds the start of image row `row` in tile column `tx`. */
  lemma TileByte(s: Source, row: nat, tx: nat, k: nat)
    requires s.Valid() && row < s.Height() && tx < s.tiles && k < 64
    ensures var at := s.off + TileRowStart(s, row, tx) + k;
            at < |s.mem| && s.At(row, tx * 64 + k) == s.mem[at]
  {
    AddrRun(s.layout, s.tiles, row, tx, k);
    AddrInRange(s.layout, s.tiles, s.bands, row, tx * 64 + k);
  }

  function TileRowStart(s: Source, row: nat, tx: nat): nat
    requires s.Valid()
  {
    s.layout.TileStart(s.layout.BandOf(row) * s.tiles + tx) + s.layout.StoredRow(s.layout.InBand(row), tx) * 64
  }

  lemma TileRowByte(s: Source, row: nat, tx: nat, t: nat, line: seq<byte>, lo: nat, k: nat)
    requires s.Valid() && row < s.Height() && tx < s.tiles && t == s.off + TileRowStart(s, row, tx)
    requires line == UntiledRow(s, row, s.Width()) && lo == tx * 64 && k < 64
    ensures lo + k < |line| && t + k < |s.mem| && line[lo + k] == s.mem[t + k]
  {
    TileByte(s, row, tx, k);
  }

  /** A tile row is a 64-byte stretch of the untiled row. */
  lemma TileRowBytes(s: Source, row: nat, tx: nat, t: nat)
    requires s.Valid() && row < s.Height() && tx < s.tiles && t == s.off + TileRowStart(s, row, tx)
    ensures t + 64 <= |s.mem| && s.mem[t..t + 64] == UntiledRow(s, row, s.Width())[tx * 64..tx * 64 + 64]
  {
    var line, lo := UntiledRow(s, row, s.Width()), tx * 64;
    TileRowByte(s, row, tx, t, line, lo, 63);
    var part, got := line[lo..lo + 64], s.mem[t..t + 64];
    forall k | 0 <= k < |got| ensures got[k] == part[k] { TileRowByte(s, row, tx, t, line, lo, k); }
  }

  lemma UntiledRowPrefix(s: Source, row: nat, w: nat)
    requires s.Valid() && row < s.Height() && w <= s.Width()
    ensures UntiledRow(s, row, w) == UntiledRow(s, row, s.Width())[..w]
  {
  }

  /** The bytes of one tile row continue the untiled row. */
  lemma UntiledRowExtends(s: Source, row: nat, tx: nat, n: nat, t: nat)
    requires s.Valid() && row < s.Height() && tx < s.tiles && n <= 64 && t == s.off + TileRowStart(s, row, tx)
    ensures t + n <= |s.mem| && UntiledRow(s, row, tx * 64) + s.mem[t..t + n] == UntiledRow(s, row, tx * 64 + n)
  {
    TileRowBytes(s, row, tx, t);
    UntiledRowPrefix(s, row, tx * 64);
    UntiledRowPrefix(s, row, tx * 64 + n);
    SliceJoin(UntiledRow(s, row, s.Width()), s.mem, t, tx * 64, n);
  }

  lemma SliceJoin(line: seq<byte>, mem: seq<byte>, t: nat, lo: nat, n: nat)
    requires lo + 64 <= |line| && t + 64 <= |mem| && n <= 64 && mem[t..t + 64] == line[lo..lo + 64]
    ensures line[..lo] + mem[t..t + n] == line[..lo + n]
  {
    assert mem[t..t + n] == mem[t..t + 64][..n] == line[lo..lo + 64][..n] == line[lo..lo + n];
  }

  /** Tile offsets of accepted frames stay below 2^32. */
  lemma TileFits32(s: Source, row: nat, tx: nat)
    requires s.Valid() && s.Width() <= MAX_WIDTH && row < MAX_HEIGHT && tx < s.tiles
    ensures Wrap32(TileRowStart(s, row, tx)) == TileRowStart(s, row, tx)
  {
    var band := s.layout.BandOf(row);
    assert band <= 288;
    MulMono(band, 288, s.tiles);
    assert s.layout.InBand(row) < s.layout.rows;
    StoredRowPermutes(s.layout, s.layout.InBand(row), tx);
    WrapBounds(TileRowStart(s, row, tx));
  }

  /** The address of a tile row in the mapped plane; the tile offset is a 32-bit number. */
  function TileRowAddr(s: Source, row: nat, tx: nat): (at: nat)
    requires s.Valid() && s.Width() <= MAX_WIDTH && row < MAX_HEIGHT && tx < s.tiles
    ensures at == s.off + TileRowStart(s, row, tx)
  {
    TileFits32(s, row, tx);
    s.off + Wrap32(TileRowStart(s, row, tx))
  }

  /** The body of the tile loop: at most 64 more bytes of the row. */
  method CopyTileRow(s: Source, w: nat, row: nat, tx: nat, dst: array<byte>, base: nat, ghost pre: seq<byte>)
    requires s.Valid() && tx * 64 < w <= s.Width() <= MAX_WIDTH && row < s.Height()
    requires row < MAX_HEIGHT && base + w <= dst.Length == |pre|
    requires dst[..] == Splice(pre, base, UntiledRow(s, row, tx * 64))
    modifies dst
    ensures dst[..] == Splice(pre, base, UntiledRow(s, row, Min(tx * 64 + 64, w)))
  {
    var n := w - tx * 64;
    if n > 64 { n := 64; }
    var at := TileRowAddr(s, row, tx);
    UntiledRowExtends(s, row, tx, n, at);
    CopyPart(s.mem, at, n, dst, base, tx * 64, pre, UntiledRow(s, row, tx * 64), UntiledRow(s, row, tx * 64 + n));
  }

  method CopyPart(mem: seq<byte>, at: nat, n: nat, dst: array<byte>, base: nat, done: nat,
                  ghost pre: seq<byte>, ghost before: seq<byte>, ghost after: seq<byte>)
    requires at + n <= |mem| && |before| == done && before + mem[at..at + n] == after
    requires base + |after| <= |pre| == dst.Length && dst[..] == Splice(pre, base, before)
    modifies dst
    ensures dst[..] == Splice(pre, base, after)
  {
    CopyBytes(dst, base + done, mem, at, n);
    SpliceTwice(pre, base, before, mem[at..at + n]);
  }

  function Min(a: nat, b: nat): nat { if a < b then a else b }

  method UntileRow(s: Source, w: nat, row: nat, dst: array<byte>, base: nat)
    requires s.Valid() && 0 < w <= s.Width() <= MAX_WIDTH && row < s.Height()
    requires row < MAX_HEIGHT && base + w <= dst.Length
    modifies dst
    ensures dst[..] == Splice(old(dst[..]), base, UntiledRow(s, row, w))
  {
    ghost var pre := dst[..];
    SpliceNothing(pre, base);
    assert UntiledRow(s, row, 0) == [];
    var tx := 0;
    while tx < (w + 63) / 64
      invariant tx <= (w + 63) / 64
      invariant dst[..] == Splice(pre, base, UntiledRow(s, row, Min(tx * 64, w)))
    {
      CopyTileRow(s, w, row, tx, dst, base, pre);
      tx := tx + 1;
    }
  }

  /** Sets exactly the first `rows * w` bytes of `dst`, to the linear image. */
  method UntilePlane(s: Source, w: nat, rows: nat, dst: array<byte>)
    requires s.Valid() && 0 < w <= s.Width() <= MAX_WIDTH && rows <= s.Height()
    requires rows <= MAX_HEIGHT && rows * w <= dst.Length
    modifies dst
    ensures dst[..] == Splice(old(dst[..]), 0, UntiledPlane(s, rows, w))
  {
    ghost var pre := dst[..];
    SpliceNothing(pre, 0);
    assert UntiledPlane(s, 0, w) == [];
    for row := 0 to rows
      invariant row * w <= dst.Length
      invariant dst[..] == Splice(pre, 0, UntiledPlane(s, row, w))
    {
      RowEnd(row, rows, w, dst.Length);
      ProductFits32(row, w);
      UntileRow(s, w, row, dst, Wrap32(row * w));
      SpliceTwice(pre, 0, UntiledPlane(s, row, w), UntiledRow(s, row, w));
    }
  }

  // ----- version 1: scale the untiled plane

  /** Entry `c` of `xmap` (luma), or of `uvmap` (chroma pairs). */
  function MapEntry(chroma: bool, w: nat, ow: nat, c: nat): nat
    requires 0 < ow
  {
    if chroma then PairPos(w, ow, c) else Scale(c, w, ow)
  }

  function Entries(chroma: bool, ow: nat): nat { if chroma then ow / 2 else ow }

  ghost predicate MapOf(m: seq<nat>, chroma: bool, w: nat, ow: nat)
    requires 0 < ow
  {
    |m| == Entries(chroma, ow) && forall c :: 0 <= c < |m| ==> m[c] == MapEntry(chroma, w, ow, c)
  }

  /** Neither the 32-bit product nor the 16-bit table entry wraps. */
  lemma MapEntryFits(chroma: bool, w: nat, ow: nat, c: nat)
    requires 0 < ow <= w <= MAX_WIDTH && c < Entries(chroma, ow)
    ensures Wrap32(c * w) == c * w && (chroma ==> Wrap32(c * 2 * w) == c * 2 * w)
    ensures MapEntry(chroma, w, ow, c) < w && MapEntry(chroma, w, ow, c) % 0x1_0000 == MapEntry(chroma, w, ow, c)
  {
    ProductFits32(c, w);
    if chroma { ProductFits32(c * 2, w); PairPosFacts(w, ow, c); } else { ScaleRoom(c, 1, w, ow); }
  }

  /** `box` is the greatest output width, for which the map has room. */
  method BuildMap(chroma: bool, w: nat, ow: nat, box: nat) returns (r: seq<nat>)
    requires 0 < ow <= w <= MAX_WIDTH && ow <= box
    ensures MapOf(r, chroma, w, ow)
  {
    var n := Entries(chroma, ow);
    var m := new nat[Entries(chroma, box)];
    for col := 0 to n
      invariant forall c :: 0 <= c < col ==> m[c] == MapEntry(chroma, w, ow, c)
    {
      MapEntryFits(chroma, w, ow, col);
      if chroma {
        assert 2 * col * w == col * 2 * w;
        m[col] := ClearLow(Wrap32(col * 2 * w) / ow) % 0x1_0000;
      } else {
        m[col] := Wrap32(col * w) / ow % 0x1_0000;
      }
    }
    r := m[..n];
  }

  /** `m` names the first byte of each luma sample or chroma pair; `pos` names every byte. */
  ghost predicate Expands(m: seq<nat>, pos: seq<nat>, chroma: bool) {
    && |pos| == Done(chroma, |m|)
    && forall c :: 0 <= c < |m| ==> pos[Done(chroma, c)] == m[c] && (chroma ==> pos[Done(chroma, c) + 1] == m[c] + 1)
  }

  /** Bytes already written in an output row once `c` entries are done. */
  function Done(chroma: bool, c: nat): nat { if chroma then 2 * c else c }

  lemma MapExpands(j: Job, m: seq<nat>)
    requires j.Valid() && MapOf(m, j.chroma, j.w, j.ow)
    ensures Expands(m, j.Pos(), j.chroma)
  {
    forall c | 0 <= c < |m|
      ensures j.Pos()[Done(j.chroma, c)] == m[c] && (j.chroma ==> j.Pos()[Done(j.chroma, c) + 1] == m[c] + 1)
    {
      if j.chroma { assert 2 * c / 2 == c && (2 * c + 1) / 2 == c; }
    }
  }

  lemma MapEven(m: seq<nat>, chroma: bool, w: nat, ow: nat)
    requires 0 < ow && MapOf(m, chroma, w, ow)
    ensures chroma ==> forall c :: 0 <= c < |m| ==> m[c] % 2 == 0
  {
  }

  /** Writes byte `i` of an output row whose first `i` bytes are in place. */
  method Put(dst: array<byte>, base: nat, i: nat, b: byte, ghost pre: seq<byte>, ghost whole: seq<byte>)
    requires |pre| == dst.Length && base + |whole| <= |pre| && i < |whole| && b == whole[i]
    requires dst[..] == Splice(pre, base, whole[..i])
    modifies dst
    ensures dst[..] == Splice(pre, base, whole[..i + 1])
  {
    SpliceByte(pre, base, whole[..i], b);
    assert whole[..i] + [b] == whole[..i + 1];
    dst[base + i] := b;
  }

  /** Writes entry `c`: one luma byte, or both bytes of a chroma pair. */
  method PutEntry(chroma: bool, dst: array<byte>, base: nat, c: nat, b0: byte, b1: byte,
                  ghost pre: seq<byte>, ghost whole: seq<byte>)
    requires |pre| == dst.Length && base + |whole| <= |pre| && Done(chroma, c + 1) <= |whole|
    requires b0 == whole[Done(chroma, c)] && (chroma ==> b1 == whole[Done(chroma, c) + 1])
    requires dst[..] == Splice(pre, base, whole[..Done(chroma, c)])
    modifies dst
    ensures dst[..] == Splice(pre, base, whole[..Done(chroma, c + 1)])
  {
    if chroma {
      Put(dst, base, c * 2, b0, pre, whole);
      Put(dst, base, c * 2 + 1, b1, pre, whole);
    } else {
      Put(dst, base, c, b0, pre, whole);
    }
  }

  /** The bytes that the offsets of one row lead to. */
  ghost predicate Leads(mem: seq<byte>, srcrow: nat, offsets: seq<nat>, whole: seq<byte>, chroma: bool) {
    && |whole| == Done(chroma, |offsets|)
    && forall c :: 0 <= c < |offsets| ==>
         && srcrow + offsets[c] < |mem| && mem[srcrow + offsets[c]] == whole[Done(chroma, c)]
         && (chroma ==> srcrow + offsets[c] + 1 < |mem| && mem[srcrow + offsets[c] + 1] == whole[Done(chroma, c) + 1])
  }

  method GatherRow(chroma: bool, mem: seq<byte>, srcrow: nat, offsets: seq<nat>, ghost whole: seq<byte>,
                   dst: array<byte>, base: nat)
    requires Leads(mem, srcrow, offsets, whole, chroma) && base + |whole| <= dst.Length
    modifies dst
    ensures dst[..] == Splice(old(dst[..]), base, whole)
  {
    ghost var pre := dst[..];
    SpliceNothing(pre, base);
    for c := 0 to |offsets|
      invariant dst[..] == Splice(pre, base, whole[..Done(chroma, c)])
    {
      var p := srcrow + offsets[c];
      PutEntry(chroma, dst, base, c, mem[p], if chroma then mem[p + 1] else 0, pre, whole);
    }
    assert whole[..|whole|] == whole;
  }

  /** Row `sy` of the untiled plane starts at `start`. */
  lemma LinearRow(s: Source, rows: nat, w: nat, lin: seq<byte>, sy: nat, start: nat, pos: seq<nat>)
    requires s.Valid() && rows <= s.Height() && w <= s.Width() && UntiledPlane(s, rows, w) <= lin
    requires sy < rows && start == sy * w && Below(pos, w)
    ensures forall i :: 0 <= i < |pos| ==> start + pos[i] < |lin| && lin[start + pos[i]] == s.At(sy, pos[i])
  {
    forall i | 0 <= i < |pos| ensures start + pos[i] < |lin| && lin[start + pos[i]] == s.At(sy, pos[i]) {
      UntiledPlaneAt(s, rows, w, sy, pos[i]);
    }
  }

  lemma LinearRowLeads(j: Job, row: nat, lin: seq<byte>, m: seq<nat>, sy: nat, start: nat)
    requires j.Valid() && row < j.Rows() && UntiledPlane(j.src, j.SrcRows(), j.w) <= lin
    requires MapOf(m, j.chroma, j.w, j.ow) && sy == Scale(row, j.h, j.oh) && start == sy * j.w
    ensures Leads(lin, start, m, j.PlaneRow(row), j.chroma)
  {
    MapExpands(j, m);
    assert |j.PlaneRow(row)| == j.ow;
    LinearRow(j.src, j.SrcRows(), j.w, lin, sy, start, j.Pos());
    LeadsByPosition(lin, start, m, j.Pos(), j.PlaneRow(row), j.chroma);
  }

  lemma LeadsByPosition(mem: seq<byte>, start: nat, m: seq<nat>, pos: seq<nat>, whole: seq<byte>, chroma: bool)
    requires Expands(m, pos, chroma) && |whole| == |pos|
    requires forall i :: 0 <= i < |pos| ==> start + pos[i] < |mem| && mem[start + pos[i]] == whole[i]
    ensures Leads(mem, start, m, whole, chroma)
  {
    forall c | 0 <= c < |m|
      ensures start + m[c] < |mem| && mem[start + m[c]] == whole[Done(chroma, c)]
      ensures chroma ==> start + m[c] + 1 < |mem| && mem[start + m[c] + 1] == whole[Done(chroma, c) + 1]
    {
      var i := Done(chroma, c);
      assert pos[i] == m[c];
      if chroma { assert pos[i + 1] == m[c] + 1; }
    }
  }

  /** One more row written right after the rows already there. */
  lemma PlaneGrows(j: Job, row: nat, pre: seq<byte>)
    requires j.Valid() && row < j.Rows() && j.Rows() * j.ow <= |pre|
    ensures row * j.ow + j.ow == (row + 1) * j.ow <= |pre|
    ensures Splice(Splice(pre, 0, j.PlaneTo(row)), row * j.ow, j.PlaneRow(row)) == Splice(pre, 0, j.PlaneTo(row + 1))
  {
    RowEnd(row, j.Rows(), j.ow, |pre|);
    j.PlaneStep(row);
    SpliceTwice(pre, 0, j.PlaneTo(row), j.PlaneRow(row));
  }

  /** The row products stay below 2^32. */
  lemma RowFits32(j: Job, row: nat)
    requires j.Valid() && row < j.Rows()
    ensures NoWrap(row, j.h) && NoWrap(row, j.ow)
    ensures Scale(row, j.h, j.oh) < j.SrcRows()
    ensures Below(j.Pos(), j.src.Width())
  {
    ProductFits32(row, j.h);
    ProductFits32(row, j.ow);
    assert |j.PlaneRow(row)| == j.ow;
  }

  /** The source row of an output row, and the byte where the output row starts, in 32-bit arithmetic. */
  method RowPlaces(j: Job, row: nat) returns (sy: nat, base: nat)
    requires j.Valid() && row < j.Rows()
    ensures sy == Scale(row, j.h, j.oh) < j.SrcRows() && base == row * j.ow && Below(j.Pos(), j.src.Width())
  {
    RowFits32(j, row);
    sy, base := Wrap32(row * j.h) / j.oh, Wrap32(row * j.ow);
  }

  method ScaleLinearRow(j: Job, row: nat, sy: nat, plane: seq<byte>, m: seq<nat>, dst: array<byte>, base: nat)
    requires j.Valid() && row < j.Rows() && sy == Scale(row, j.h, j.oh) < j.SrcRows()
    requires UntiledPlane(j.src, j.SrcRows(), j.w) <= plane
    requires MapOf(m, j.chroma, j.w, j.ow) && base + j.ow <= dst.Length
    modifies dst
    ensures dst[..] == Splice(old(dst[..]), base, j.PlaneRow(row))
  {
    ProductFits32(sy, j.w);
    var start := Wrap32(sy * j.w);
    LinearRowLeads(j, row, plane, m, sy, start);
    GatherRow(j.chroma, plane, start, m, j.PlaneRow(row), dst, base);
  }

  /** Scales the linear plane that untiling produced. */
  method ScaleLinear(j: Job, lin: array<byte>, dst: array<byte>)
    requires j.Valid() && j.ow <= 1280 && lin != dst && j.Rows() * j.ow <= dst.Length
    requires UntiledPlane(j.src, j.SrcRows(), j.w) <= lin[..]
    modifies dst
    ensures dst[..] == Splice(old(dst[..]), 0, j.Plane())
  {
    var m := BuildMap(j.chroma, j.w, j.ow, 1280);
    var plane := lin[..];
    ghost var pre := dst[..];
    SpliceNothing(pre, 0);
    for row := 0 to j.Rows()
      invariant row * j.ow <= dst.Length
      invariant dst[..] == Splice(pre, 0, j.PlaneTo(row))
    {
      PlaneGrows(j, row, pre);
      var sy, base := RowPlaces(j, row);
      ScaleLinearRow(j, row, sy, plane, m, dst, base);
    }
  }
}

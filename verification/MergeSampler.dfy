/** Version 4: walks the tile bytes of a source row once, and emits a byte whenever the next
    wanted column is reached. */
module MergeSampler {
  import opened Arith
  import opened Bytes
  import opened Buffers
  import opened TileLayout
  import opened FrameSpec
  import opened FrameLoops

  ghost predicate StrictlyIncreasing(m: seq<nat>) {
    forall c, d :: 0 <= c < d < |m| ==> m[c] < m[d]
  }

  /** Downscaling makes both column maps strictly increasing. */
  lemma MapIncreases(m: seq<nat>, chroma: bool, w: nat, ow: nat)
    requires 0 < ow <= w && MapOf(m, chroma, w, ow)
    ensures StrictlyIncreasing(m)
  {
    forall c, d | 0 <= c < d < |m| ensures m[c] < m[d] {
      if chroma {
        ScaleGap(2 * c, 2 * (d - c), w, ow);
        assert 2 * c + 2 * (d - c) == 2 * d;
      } else {
        ScaleGap(c, d - c, w, ow);
      }
    }
  }

  ghost predicate CountsTo(order: seq<nat>, n: nat) {
    |order| == n && forall i :: 0 <= i < n ==> order[i] == i
  }

  /** The inner skip loop. */
  method SkipBelow(m: seq<nat>, emitted: nat, sx: nat) returns (e: nat)
    requires emitted <= |m|
    ensures emitted <= e <= |m| && (e < |m| ==> sx <= m[e])
    ensures forall c :: emitted <= c < e ==> m[c] < sx
  {
    e := emitted;
    while e < |m| && m[e] < sx
      invariant emitted <= e <= |m|
      invariant forall c :: emitted <= c < e ==> m[c] < sx
    {
      e := e + 1;
    }
  }

  /** The 64 bytes at `t` hold the wanted columns from `lo` on. */
  ghost predicate Supplies(mem: seq<byte>, t: nat, lo: nat, m: seq<nat>, whole: seq<byte>, chroma: bool) {
    && |whole| == Done(chroma, |m|) && t + 64 <= |mem|
    && forall c :: 0 <= c < |m| && lo <= m[c] < lo + 64 ==>
         && mem[t + (m[c] - lo)] == whole[Done(chroma, c)]
         && (chroma ==> m[c] + 1 < lo + 64 && mem[t + (m[c] - lo) + 1] == whole[Done(chroma, c) + 1])
  }

  lemma LineSupplies(line: seq<byte>, mem: seq<byte>, t: nat, lo: nat, m: seq<nat>, pos: seq<nat>,
                     whole: seq<byte>, chroma: bool)
    requires lo + 64 <= |line| && t + 64 <= |mem| && mem[t..t + 64] == line[lo..lo + 64] && lo % 2 == 0
    requires Expands(m, pos, chroma) && Below(pos, |line|)
    requires |whole| == |pos| && forall i :: 0 <= i < |pos| ==> whole[i] == line[pos[i]]
    requires chroma ==> forall c :: 0 <= c < |m| ==> m[c] % 2 == 0
    ensures Supplies(mem, t, lo, m, whole, chroma)
  {
    forall c | 0 <= c < |m| && lo <= m[c] < lo + 64
      ensures mem[t + (m[c] - lo)] == whole[Done(chroma, c)]
      ensures chroma ==> m[c] + 1 < lo + 64 && mem[t + (m[c] - lo) + 1] == whole[Done(chroma, c) + 1]
    {
      var i, k := Done(chroma, c), m[c] - lo;
      assert pos[i] == m[c] && mem[t..t + 64][k] == line[lo..lo + 64][k];
      if chroma {
        assert pos[i + 1] == m[c] + 1 && mem[t..t + 64][k + 1] == line[lo..lo + 64][k + 1];
      }
    }
  }

  lemma TileSupplies(s: Source, chroma: bool, m: seq<nat>, pos: seq<nat>, sy: nat, tx: nat, t: nat, whole: seq<byte>)
    requires s.Valid() && sy < s.Height() && tx < s.tiles && Expands(m, pos, chroma) && Below(pos, s.Width())
    requires chroma ==> forall c :: 0 <= c < |m| ==> m[c] % 2 == 0
    requires t == s.off + TileRowStart(s, sy, tx) && whole == SampledRow(s, sy, pos)
    ensures Supplies(s.mem, t, tx * 64, m, whole, chroma)
  {
    TileRowBytes(s, sy, tx, t);
    TileStartsEven(tx);
    LineSupplies(UntiledRow(s, sy, s.Width()), s.mem, t, tx * 64, m, pos, whole, chroma);
  }

  /** One byte (or pair) of a tile row: skips wanted columns already passed, and emits the next one if
      it is this one. */
  method MergeByte(mem: seq<byte>, t: nat, lo: nat, k: nat, chroma: bool, m: seq<nat>, e0: nat,
                   ghost pre: seq<byte>, ghost whole: seq<byte>, dst: array<byte>, base: nat,
                   ghost order0: seq<nat>) returns (emitted: nat, ghost order: seq<nat>)
    requires Supplies(mem, t, lo, m, whole, chroma) && StrictlyIncreasing(m) && k < (if chroma then 63 else 64)
    requires |pre| == dst.Length && base + |whole| <= |pre| && CountsTo(order0, e0)
    requires e0 < |m| && lo + k <= m[e0] && dst[..] == Splice(pre, base, whole[..Done(chroma, e0)])
    modifies dst
    ensures e0 <= emitted <= e0 + 1 && (emitted < |m| ==> lo + k < m[emitted]) && CountsTo(order, emitted)
    ensures dst[..] == Splice(pre, base, whole[..Done(chroma, emitted)])
  {
    var sx := lo + k;
    emitted := SkipBelow(m, e0, sx);
    order := order0;
    if emitted < |m| && m[emitted] == sx {
      PutEntry(chroma, dst, base, emitted, mem[t + k], if chroma then mem[t + k + 1] else 0, pre, whole);
      order := order + [emitted];
      emitted := emitted + 1;
    }
  }

  /** One 64-byte tile row: emits every wanted column below the tile's right edge. */
  method MergeTile(mem: seq<byte>, t: nat, lo: nat, chroma: bool, m: seq<nat>, e0: nat,
                   ghost pre: seq<byte>, ghost whole: seq<byte>, dst: array<byte>, base: nat,
                   ghost order0: seq<nat>) returns (emitted: nat, ghost order: seq<nat>)
    requires Supplies(mem, t, lo, m, whole, chroma) && StrictlyIncreasing(m) && lo % 2 == 0
    requires chroma ==> forall c :: 0 <= c < |m| ==> m[c] % 2 == 0
    requires |pre| == dst.Length && base + |whole| <= |pre| && CountsTo(order0, e0)
    requires e0 < |m| && lo <= m[e0] && dst[..] == Splice(pre, base, whole[..Done(chroma, e0)])
    modifies dst
    ensures e0 <= emitted <= |m| && (emitted < |m| ==> lo + 64 <= m[emitted]) && CountsTo(order, emitted)
    ensures dst[..] == Splice(pre, base, whole[..Done(chroma, emitted)])
  {
    emitted, order := e0, order0;
    var k := 0;
    while k < 64 && emitted < |m|
      invariant k <= 64 && (chroma ==> k % 2 == 0) && e0 <= emitted <= |m|
      invariant emitted < |m| ==> lo + k <= m[emitted]
      invariant CountsTo(order, emitted)
      invariant dst[..] == Splice(pre, base, whole[..Done(chroma, emitted)])
      decreases 64 - k
    {
      emitted, order := MergeByte(mem, t, lo, k, chroma, m, emitted, pre, whole, dst, base, order);
      k := if chroma then k + 2 else k + 1;
    }
  }

  /** The tile row of source row `sy` in tile column `tx`. */
  method MergeSourceTile(s: Source, chroma: bool, m: seq<nat>, ghost pos: seq<nat>, sy: nat, tx: nat, e0: nat,
                         ghost pre: seq<byte>, ghost whole: seq<byte>, dst: array<byte>, base: nat,
                         ghost order0: seq<nat>)
    returns (emitted: nat, ghost order: seq<nat>)
    requires s.Valid() && s.Width() <= MAX_WIDTH && sy < s.Height() && sy < MAX_HEIGHT && tx < s.tiles
    requires Expands(m, pos, chroma) && Below(pos, s.Width()) && StrictlyIncreasing(m)
    requires chroma ==> forall c :: 0 <= c < |m| ==> m[c] % 2 == 0
    requires whole == SampledRow(s, sy, pos) && |pre| == dst.Length && base + |whole| <= |pre| && CountsTo(order0, e0)
    requires e0 < |m| && tx * 64 <= m[e0] && dst[..] == Splice(pre, base, whole[..Done(chroma, e0)])
    modifies dst
    ensures e0 <= emitted <= |m| && (emitted < |m| ==> tx * 64 + 64 <= m[emitted]) && CountsTo(order, emitted)
    ensures dst[..] == Splice(pre, base, whole[..Done(chroma, emitted)])
  {
    var t := TileRowAddr(s, sy, tx);
    TileSupplies(s, chroma, m, pos, sy, tx, t, whole);
    TileStartsEven(tx);
    emitted, order := MergeTile(s.mem, t, tx * 64, chroma, m, e0, pre, whole, dst, base, order0);
  }

  lemma TileStartsEven(tx: nat)
    ensures tx * 64 % 2 == 0
  {
    DivUnique(tx * 64, 2, tx * 32);
  }

  /** The whole row. `order` lists the output columns (or pairs) in the order they were emitted:
      each one, exactly once, left to right. */
  method MergeRow(s: Source, chroma: bool, m: seq<nat>, ghost pos: seq<nat>, sy: nat, dst: array<byte>, base: nat)
    returns (ghost order: seq<nat>)
    requires s.Valid() && s.Width() <= MAX_WIDTH && sy < s.Height() && sy < MAX_HEIGHT
    requires Expands(m, pos, chroma) && Below(pos, s.Width()) && StrictlyIncreasing(m)
    requires chroma ==> forall c :: 0 <= c < |m| ==> m[c] % 2 == 0
    requires base + |pos| <= dst.Length
    modifies dst
    ensures dst[..] == Splice(old(dst[..]), base, SampledRow(s, sy, pos)) && CountsTo(order, |m|)
  {
    ghost var pre, whole := dst[..], SampledRow(s, sy, pos);
    SpliceNothing(pre, base);
    var emitted, tx := 0, 0;
    order := [];
    while tx < s.tiles && emitted < |m|
      invariant tx <= s.tiles && emitted <= |m| && (emitted < |m| ==> tx * 64 <= m[emitted]) && CountsTo(order, emitted)
      invariant dst[..] == Splice(pre, base, whole[..Done(chroma, emitted)])
      decreases s.tiles - tx
    {
      emitted, order := MergeSourceTile(s, chroma, m, pos, sy, tx, emitted, pre, whole, dst, base, order);
      tx := tx + 1;
    }
    LastEntryBelow(s, chroma, m, pos);
    assert whole[..|whole|] == whole;
  }

  lemma LastEntryBelow(s: Source, chroma: bool, m: seq<nat>, pos: seq<nat>)
    requires Expands(m, pos, chroma) && Below(pos, s.Width())
    ensures forall c :: 0 <= c < |m| ==> m[c] < s.tiles * 64
  {
    forall c | 0 <= c < |m| ensures m[c] < s.tiles * 64 { assert pos[Done(chroma, c)] == m[c]; }
  }

  /** What merging output row `row` of a job needs. */
  lemma JobRowReady(j: Job, m: seq<nat>, row: nat, pos: seq<nat>, sy: nat)
    requires j.Valid() && row < j.Rows() && MapOf(m, j.chroma, j.w, j.ow)
    requires pos == j.Pos() && sy == Scale(row, j.h, j.oh)
    ensures sy < j.src.Height() && sy < MAX_HEIGHT && Expands(m, pos, j.chroma)
    ensures Below(pos, j.src.Width()) && StrictlyIncreasing(m)
    ensures j.chroma ==> forall c :: 0 <= c < |m| ==> m[c] % 2 == 0
    ensures |pos| == j.ow && j.PlaneRow(row) == SampledRow(j.src, sy, pos)
  {
    MapExpands(j, m);
    MapIncreases(m, j.chroma, j.w, j.ow);
    MapEven(m, j.chroma, j.w, j.ow);
    assert |j.PlaneRow(row)| == j.ow;
  }

  /** Output row `row` of the job. */
  method MergeJobRow(j: Job, row: nat, sy: nat, m: seq<nat>, dst: array<byte>, base: nat)
    requires j.Valid() && row < j.Rows() && sy == Scale(row, j.h, j.oh) && MapOf(m, j.chroma, j.w, j.ow)
    requires base + j.ow <= dst.Length
    modifies dst
    ensures dst[..] == Splice(old(dst[..]), base, j.PlaneRow(row))
  {
    ghost var pos := j.Pos();
    JobRowReady(j, m, row, pos, sy);
    ghost var order := MergeRow(j.src, j.chroma, m, pos, sy, dst, base);
  }

  /** Writes exactly the plane of the job. */
  method MergePlane(j: Job, dst: array<byte>)
    requires j.Valid() && j.Rows() * j.ow <= dst.Length
    modifies dst
    ensures dst[..] == Splice(old(dst[..]), 0, j.Plane())
  {
    var m := BuildMap(j.chroma, j.w, j.ow, 1920);
    ghost var pre := dst[..];
    SpliceNothing(pre, 0);
    for row := 0 to j.Rows()
      invariant row * j.ow <= dst.Length
      invariant dst[..] == Splice(pre, 0, j.PlaneTo(row))
    {
      PlaneGrows(j, row, pre);
      var sy, base := RowPlaces(j, row);
      MergeJobRow(j, row, sy, m, dst, base);
    }
  }
}

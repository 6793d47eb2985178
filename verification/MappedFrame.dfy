/** The version 5 frame routine on top of the cache of mappings: what is read when the second lookup
    may unmap what the first one returned. */
module MappedFrame {
  import opened Options
  import opened Bytes
  import opened Arith
  import opened TileLayout
  import opened FrameSpec
  import opened FramePath
  import opened MapCache

  /** The Y and then the VU lookup of one frame, in a given cache. */
  datatype Lookups = Lookups(before: MapCache.State, y: Phys, yGrant: Grant, vu: Phys, vuGrant: Grant) {
    ghost predicate Possible() {
      && MapCache.Inv(before) && Fresh(before, Lookup(y, yGrant))
      && Fresh(AfterLookup(before, y, yGrant), Lookup(vu, vuGrant))
    }

    function YPtr(): Grant { Returned(before, y, yGrant) }

    function AfterY(): MapCache.State
      requires |before.entries| <= CAPACITY
    {
      AfterLookup(before, y, yGrant)
    }

    function VuPtr(): Grant
      requires |before.entries| <= CAPACITY
    {
      Returned(AfterY(), vu, vuGrant)
    }

    function AfterBoth(): MapCache.State
      requires |before.entries| <= CAPACITY
    {
      AfterLookup(AfterY(), vu, vuGrant)
    }

    /** Y was a hit in the slot that is evicted next, the cache was full, and VU had to be mapped. */
    predicate YEvicted() {
      && Hit(before, y) && Find(before.entries, y) == Victim(before) && |before.entries| == CAPACITY
      && !Hit(before, vu) && vuGrant.Granted?
    }

    /** Exactly when Y was not evicted, both pointers still show the buffers asked for. */
    lemma BothLive()
      requires Possible() && YPtr().Granted? && VuPtr().Granted?
      ensures var live := Live(AfterBoth().log);
              && VuPtr().ptr in live && live[VuPtr().ptr] == vu
              && (YPtr().ptr in live <==> !YEvicted()) && (YPtr().ptr in live ==> live[YPtr().ptr] == y)
    {
      MapCache.InvStep(before, Lookup(y, yGrant));
      MapCache.InvStep(AfterY(), Lookup(vu, vuGrant));
      ReturnedIsLive(AfterY(), vu, vuGrant);
      YSurvivesVu(before, y, yGrant, vu, vuGrant);
      if !YEvicted() {
        YSlotFacts(before, y, yGrant);
        KeptSlot(AfterY(), YSlot(before, y), vu, vuGrant);
      }
    }
  }

  lemma KeptSlot(u: MapCache.State, slot: nat, phys: Phys, granted: Grant)
    requires MapCache.Inv(u) && Fresh(u, Lookup(phys, granted)) && slot < |u.entries|
    requires !(!Hit(u, phys) && granted.Granted? && |u.entries| == CAPACITY && slot == Victim(u))
    ensures var e, live := u.entries[slot], Live(AfterLookup(u, phys, granted).log);
            e.ptr in live && live[e.ptr] == e.phys
  {
    MapCache.InvStep(u, Lookup(phys, granted));
    assert AfterLookup(u, phys, granted).entries[slot] == u.entries[slot];
    assert u.entries[slot] in AfterLookup(u, phys, granted).entries;
  }

  /** A mapped address shows the memory it is mapped to; nothing is known about any other address. */
  ghost predicate Shows(read: Ptr -> seq<byte>, memory: Phys -> seq<byte>, live: map<Ptr, Phys>) {
    forall p :: p in live ==> read(p) == memory(live[p])
  }

  /** The frame routine with its lookups. `read` is what each address shows once both are done. */
  method Nv21FromMappedFrame(f: FrameInfo, cache: Cache, yGrant: Grant, vuGrant: Grant,
                             read: Ptr -> seq<byte>, ghost memory: Phys -> seq<byte>, ghost l: Lookups, sc: Scratch)
      returns (r: Outcome)
    requires cache.Valid() && sc.Valid(1920, 1080)
    requires l == Lookups(cache.Abs(), f.yBuf, yGrant, f.vuBuf, vuGrant) && l.Possible()
    requires Shows(read, memory, Live(l.AfterBoth().log))
    requires Accepted(f, V5) ==> Covers(f, V5, memory(f.yBuf), memory(f.vuBuf))
    requires Accepted(f, V5) && l.YPtr().Granted? ==> Covers(f, V5, read(l.YPtr().ptr), memory(f.vuBuf))
    modifies cache, cache.slots, sc.ylin, sc.vulin, sc.yscale, sc.vuscale
    ensures cache.Valid() && cache.Abs() == if Accepted(f, V5) then l.AfterBoth() else l.before
    ensures !Accepted(f, V5) || l.YPtr().Null? || l.VuPtr().Null? ==> r == Rejected
    ensures Accepted(f, V5) && l.YPtr().Granted? && l.VuPtr().Granted? ==>
            Delivered(f, V5, Some(read(l.YPtr().ptr)), Some(memory(f.vuBuf)), sc, r)
    ensures Accepted(f, V5) && l.YPtr().Granted? && l.VuPtr().Granted? && !l.YEvicted() ==>
            Delivered(f, V5, Some(memory(f.yBuf)), Some(memory(f.vuBuf)), sc, r)
  {
    if !Accepted(f, V5) { return Rejected; }
    var y := cache.MapGet(f.yBuf, yGrant);
    var vu := cache.MapGet(f.vuBuf, vuGrant);
    if y.Null? || vu.Null? { return Rejected; }
    l.BothLive();
    r := Nv21FromFrameV5(f, Some(read(y.ptr)), Some(read(vu.ptr)), sc);
  }

  /** An address that was unmapped may show anything, and it matters: whatever the frame's luma
      buffer holds, some other contents give a different luma plane. */
  lemma StaleLumaShows(f: FrameInfo, g: Generation, y: seq<byte>, vu: seq<byte>) returns (other: seq<byte>)
    requires g.Valid() && Accepted(f, g) && Covers(f, g, y, vu)
    ensures Covers(f, g, other, vu) && LumaOut(f, g, other, vu) != LumaOut(f, g, y, vu)
  {
    other := seq(|y|, i requires 0 <= i < |y| => if y[i] == 255 then 0 else y[i] + 1);
    JobsValid(f, g, y, vu);
    JobsValid(f, g, other, vu);
    PlanesDiffer(LumaJob(f, g, y), LumaJob(f, g, other), 0);
  }

  /** What the addresses may show once both lookups are done: mapped ones their memory, and the Y
      address, mapped or not, a readable plane. */
  ghost predicate Readable(f: FrameInfo, l: Lookups, read: Ptr -> seq<byte>, memory: Phys -> seq<byte>)
    requires SizeAccepted(f.w, f.h, f.stride) && |l.before.entries| <= CAPACITY && l.YPtr().Granted?
  {
    && Shows(read, memory, Live(l.AfterBoth().log))
    && Covers(f, V5, read(l.YPtr().ptr), memory(f.vuBuf))
  }

  /** The luma that is read for the frame is the frame's. */
  ghost predicate LumaIsRight(f: FrameInfo, l: Lookups, read: Ptr -> seq<byte>, memory: Phys -> seq<byte>)
    requires Accepted(f, V5) && Covers(f, V5, memory(f.yBuf), memory(f.vuBuf))
    requires |l.before.entries| <= CAPACITY && l.YPtr().Granted? && Readable(f, l, read, memory)
  {
    LumaOut(f, V5, read(l.YPtr().ptr), memory(f.vuBuf)) == LumaOut(f, V5, memory(f.yBuf), memory(f.vuBuf))
  }

  /** The delivered luma is the frame's, whatever the addresses show, if and only if Y was not evicted. */
  lemma LumaCertainExactly(f: FrameInfo, l: Lookups, memory: Phys -> seq<byte>)
    requires Accepted(f, V5) && Covers(f, V5, memory(f.yBuf), memory(f.vuBuf))
    requires l.Possible() && l.y == f.yBuf && l.vu == f.vuBuf && l.YPtr().Granted? && l.VuPtr().Granted?
    ensures (forall read: Ptr -> seq<byte> :: Readable(f, l, read, memory) ==> LumaIsRight(f, l, read, memory))
            <==> !l.YEvicted()
  {
    l.BothLive();
    if l.YEvicted() {
      var read := StaleReading(f, l, memory);
      assert !LumaIsRight(f, l, read, memory);
    }
  }

  /** After an eviction there are contents at the stale address that give a different luma plane. */
  lemma StaleReading(f: FrameInfo, l: Lookups, memory: Phys -> seq<byte>) returns (read: Ptr -> seq<byte>)
    requires Accepted(f, V5) && Covers(f, V5, memory(f.yBuf), memory(f.vuBuf))
    requires l.Possible() && l.y == f.yBuf && l.vu == f.vuBuf && l.YPtr().Granted? && l.VuPtr().Granted?
    requires l.YEvicted()
    ensures Readable(f, l, read, memory) && !LumaIsRight(f, l, read, memory)
  {
    l.BothLive();
    var live, y := Live(l.AfterBoth().log), l.YPtr().ptr;
    var other := StaleLumaShows(f, V5, memory(f.yBuf), memory(f.vuBuf));
    read := (p: Ptr) => if p in live then memory(live[p]) else other;
    assert read(y) == other;
  }

  lemma ScaleZero(n: nat, m: nat)
    requires 0 < m
    ensures Scale(0, n, m) == 0
  {
    DivUnique(0, m, 0);
  }

  /** The first byte of a luma plane is the first pixel of the source. */
  lemma FirstLuma(j: Job, o: nat)
    requires j.Valid() && !j.chroma && o == 0
    ensures o < j.src.Height() && o < j.src.Width() && j.Byte(o, o) == j.src.At(o, o)
  {
    ScaleZero(j.h, j.oh);
    ScaleZero(j.w, j.ow);
    LumaByte(j, o, o, o, o);
  }

  lemma PlanesDiffer(j: Job, k: Job, o: nat)
    requires j.Valid() && k.Valid() && !j.chroma && k == j.(src := k.src) && k.src == j.src.(mem := k.src.mem) && o == 0
    requires |j.src.mem| == |k.src.mem| && forall i :: 0 <= i < |j.src.mem| ==> j.src.mem[i] != k.src.mem[i]
    ensures j.Plane() != k.Plane()
  {
    FirstLuma(j, o);
    FirstLuma(k, o);
    PixelsDiffer(j.src, k.src, o);
  }

  lemma PixelsDiffer(s: Source, t: Source, o: nat)
    requires s.Valid() && o < s.Height() && o < s.Width() && t.Valid() && t == s.(mem := t.mem)
    requires |s.mem| == |t.mem| && forall i :: 0 <= i < |s.mem| ==> s.mem[i] != t.mem[i]
    ensures s.At(o, o) != t.At(o, o)
  {
    AddrInRange(s.layout, s.tiles, s.bands, o, o);
  }
}

/** The audio jitter buffer: a ring of samples, and a histogram of fill levels that decides every
    twelve seconds how many of the oldest samples to drop. */
module AudioBuffer {
  import opened Arith

  const AUDIO_BUFFER_MS := 3000
  const WINDOW_MS := 12000
  const BUCKETS := 30
  const N := 4

  // ----- what the histogram decides

  /** Fill levels are counted in tenths of a second, the last bucket open-ended. */
  function Bucket(having: nat, rate: nat): (b: nat)
    requires 0 < rate
    ensures b < BUCKETS && InBucket(having, rate, b)
  {
    DivBounds(having * 10, rate);
    TopBucket(having, rate);
    if having * 10 / rate > 29 then 29 else having * 10 / rate
  }

  /** A fill of `having` samples lasts at least `b` tenths of a second at the given rate, and, unless `b`
      is the last bucket, less than one tenth more. */
  predicate InBucket(having: nat, rate: nat, b: nat) {
    b * rate <= 10 * having && (b < 29 ==> 10 * having < (b + 1) * rate)
  }

  lemma TopBucket(having: nat, rate: nat)
    requires 0 < rate
    ensures having * 10 / rate > 29 ==> 29 * rate <= 10 * having
  {
    DivBounds(having * 10, rate);
    if having * 10 / rate > 29 { MulMono(29, having * 10 / rate, rate); }
  }

  /** The bucket is determined by the playing time. */
  lemma BucketIs(having: nat, rate: nat, b: nat)
    requires 0 < rate && b < BUCKETS && InBucket(having, rate, b)
    ensures Bucket(having, rate) == b
  {
    var c := Bucket(having, rate);
    if c < b { MulMono(c + 1, b, rate); }
    if b < c { MulMono(b + 1, c, rate); }
  }

  /** Length of the run of empty buckets at the start of the first `i`. */
  function EmptyRun(h: seq<nat>, i: nat): (z: nat)
    requires i <= |h|
    ensures z <= i && (forall j :: 0 <= j < z ==> h[j] == 0) && (z < i ==> h[z] != 0)
  {
    if i == 0 then 0
    else
      var z := EmptyRun(h, i - 1);
      if z == i - 1 && h[i - 1] == 0 then i else z
  }

  /** The first fullest bucket among those from 1 to `i - 1`, or 0 if they are all empty. Bucket 0
      never wins: the scan clears it before it is compared with anything. */
  function Fullest(h: seq<nat>, i: nat): (m: nat)
    requires 1 <= i <= |h|
    ensures m < i
    ensures m == 0 ==> forall j :: 1 <= j < i ==> h[j] == 0
    ensures m > 0 ==> h[m] > 0 && (forall j :: 1 <= j < i ==> h[j] <= h[m]) && (forall j :: 1 <= j < m ==> h[j] < h[m])
  {
    if i == 1 then 0
    else
      var m := Fullest(h, i - 1);
      if h[i - 1] > (if m == 0 then 0 else h[m]) then i - 1 else m
  }

  /** Samples to drop, given the empty run, the fullest bucket, the capacity and the current fill. */
  function DropFor(run: nat, max: nat, cap: nat, having: nat): nat {
    if max < 6 then 0
    else
      var skip := Skip(run * 2 / 3, max, cap);
      if having > skip * 3 && skip > 0 then skip else 0
  }

  function Skip(zero: nat, max: nat, cap: nat): nat {
    ClearLow(cap * Level(zero, max) / (30 * N) + 1)
  }

  /** The fullest bucket, capped by the safe level (in quarter buckets). */
  function Level(zero: nat, max: nat): nat { if max > zero * N then zero * N else max }

  /** Samples to drop for a histogram. */
  function Drop(h: seq<nat>, cap: nat, having: nat): nat
    requires |h| == BUCKETS
  {
    DropFor(EmptyRun(h, BUCKETS), Fullest(h, BUCKETS), cap, having)
  }

  type Rate = x: int | 0 < x witness 1

  /** A fill level and the sample rate in force when it was recorded. */
  datatype Reading = Reading(having: nat, rate: Rate)

  /** How many readings of a window fell into bucket `b`. */
  function Hits(window: seq<Reading>, b: nat): nat {
    if window == [] then 0
    else
      var last := window[|window| - 1];
      Hits(window[..|window| - 1], b) + if Bucket(last.having, last.rate) == b then 1 else 0
  }

  /** The histogram of a window. */
  function Histogram(window: seq<Reading>): (h: seq<nat>)
    ensures |h| == BUCKETS && forall b :: 0 <= b < BUCKETS ==> h[b] == Hits(window, b)
  {
    seq(BUCKETS, b requires 0 <= b < BUCKETS => Hits(window, b))
  }

  lemma {:induction false} ReadingIsCounted(window: seq<Reading>, r: Reading)
    requires r in window
    ensures Hits(window, Bucket(r.having, r.rate)) > 0
  {
    var last := window[|window| - 1];
    if r != last { ReadingIsCounted(window[..|window| - 1], r); }
  }

  /** One drop removes, in playing time, at most two thirds of any fill level seen in the window,
      plus one sample, even if the rate changed during the window; it is even, and leaves more than
      twice as much behind. */
  lemma DropIsSafe(window: seq<Reading>, rate: Rate, having: nat, r: Reading)
    requires r in window
    ensures var d := Drop(Histogram(window), 3 * rate, having);
            3 * d * r.rate <= 2 * r.having * rate + 3 * r.rate && d % 2 == 0 && (d > 0 ==> having > 3 * d)
  {
    var h, b := Histogram(window), Bucket(r.having, r.rate);
    ReadingIsCounted(window, r);
    assert EmptyRun(h, BUCKETS) <= b;
    DropForBound(EmptyRun(h, BUCKETS), Fullest(h, BUCKETS), rate, having, b, r);
  }

  /** With one rate throughout the window the bound is in samples. */
  lemma DropIsSafeAtOneRate(window: seq<Reading>, rate: Rate, having: nat, r: Reading)
    requires r in window && r.rate == rate
    ensures 3 * Drop(Histogram(window), 3 * rate, having) <= 2 * r.having + 3
  {
    DropIsSafe(window, rate, having, r);
    var d := Drop(Histogram(window), 3 * rate, having);
    CancelRate(3 * d, 2 * r.having + 3, rate);
    assert 3 * d * rate <= (2 * r.having + 3) * rate;
  }

  lemma CancelRate(a: nat, b: nat, rate: Rate)
    ensures a * rate <= b * rate ==> a <= b
  {
    if a > b { MulMono(b + 1, a, rate); }
  }

  lemma DropForBound(run: nat, max: nat, rate: Rate, having: nat, b: nat, r: Reading)
    requires run <= b && b * r.rate <= 10 * r.having
    ensures var d := DropFor(run, max, 3 * rate, having);
            3 * d * r.rate <= 2 * r.having * rate + 3 * r.rate && d % 2 == 0 && (d > 0 ==> having > 3 * d)
  {
    var zero := run * 2 / 3;
    var level := Level(zero, max);
    var q := 3 * rate * level / 120;
    DropForSize(run, max, 3 * rate, having);
    SkipBound(rate, level, zero, b);
    InTime(q, rate, b, r);
    PlusOne(DropFor(run, max, 3 * rate, having), q, r.rate, 2 * r.having * rate);
  }

  lemma DropForSize(run: nat, max: nat, cap: nat, having: nat)
    ensures var d := DropFor(run, max, cap, having);
            d <= cap * Level(run * 2 / 3, max) / 120 + 1 && d % 2 == 0 && (d > 0 ==> having > 3 * d)
  {
  }

  lemma PlusOne(d: nat, q: nat, rate: nat, bound: nat)
    requires d <= q + 1 && 3 * q * rate <= bound
    ensures 3 * d * rate <= bound + 3 * rate
  {
    MulMono(3 * d, 3 * q + 3, rate);
    assert (3 * q + 3) * rate == 3 * q * rate + 3 * rate;
  }

  lemma SkipBound(rate: nat, level: nat, zero: nat, b: nat)
    requires level <= 4 * zero && 3 * zero <= 2 * b
    ensures 30 * (3 * rate * level / 120) <= 2 * (b * rate)
  {
    var q := 3 * rate * level / 120;
    DivBounds(3 * rate * level, 120);
    MulMono(level, 4 * zero, rate);
    MulMono(3 * zero, 2 * b, rate);
    assert 120 * q <= 3 * (rate * level) by { assert 3 * rate * level == 3 * (rate * level); }
    assert rate * (4 * zero) == 4 * (rate * zero);
    assert rate * (3 * zero) == 3 * (rate * zero);
    assert rate * (2 * b) == 2 * (b * rate);
  }

  lemma InTime(q: nat, rate: nat, b: nat, r: Reading)
    requires 30 * q <= 2 * (b * rate) && b * r.rate <= 10 * r.having
    ensures 3 * q * r.rate <= 2 * r.having * rate
  {
    MulMono(30 * q, 2 * (b * rate), r.rate);
    MulMono(b * r.rate, 10 * r.having, rate);
    assert 2 * (b * rate) * r.rate == 2 * (b * r.rate * rate);
    assert 30 * q * r.rate == 10 * (3 * q * r.rate);
    assert 10 * r.having * rate == 5 * (2 * r.having * rate);
  }

  lemma {:induction false} SteadyHits(window: seq<Reading>, b: nat, j: nat)
    requires forall r :: r in window ==> Bucket(r.having, r.rate) == b
    ensures Hits(window, j) == if j == b then |window| else 0
  {
    if window != [] {
      var front := window[..|window| - 1];
      forall r | r in front ensures Bucket(r.having, r.rate) == b { assert r in window; }
      SteadyHits(front, b, j);
    }
  }

  /** A fill that stays in one bucket of at least 600 ms loses a quarter of that bucket's level, as
      long as the ring still holds more than three times as much. */
  lemma SteadyFillDropsQuarter(window: seq<Reading>, b: nat, rate: Rate, having: nat)
    requires window != [] && 6 <= b < BUCKETS && forall r :: r in window ==> InBucket(r.having, r.rate, b)
    ensures var skip := ClearLow(rate * b / 40 + 1);
            Drop(Histogram(window), 3 * rate, having) == if having > 3 * skip then skip else 0
  {
    var h := Histogram(window);
    forall r | r in window ensures Bucket(r.having, r.rate) == b { BucketIs(r.having, r.rate, b); }
    forall j | 0 <= j < BUCKETS ensures h[j] == if j == b then |window| else 0 { SteadyHits(window, b, j); }
    SteadyScan(h, b, BUCKETS);
    SteadyDrop(b, rate, having);
  }

  lemma SteadyScan(h: seq<nat>, b: nat, n: nat)
    requires 1 <= b < n == |h| && forall j :: 0 <= j < n ==> (h[j] > 0 <==> j == b)
    ensures EmptyRun(h, n) == b && Fullest(h, n) == b
  {
    var z, m := EmptyRun(h, n), Fullest(h, n);
    assert h[b] > 0;
  }

  lemma SteadyDrop(b: nat, rate: nat, having: nat)
    requires 6 <= b
    ensures var skip := ClearLow(rate * b / 40 + 1);
            DropFor(b, b, 3 * rate, having) == if having > 3 * skip then skip else 0
  {
    assert Level(b * 2 / 3, b) == b;
    QuarterLevel(rate, b);
  }

  lemma QuarterLevel(rate: nat, b: nat)
    ensures 3 * rate * b / 120 == rate * b / 40
  {
    var p := rate * b;
    assert 3 * rate * b == 3 * p;
    DivBounds(p, 40);
    DivUnique(3 * p, 120, p / 40);
  }

  /** The first bucket that was hit, or the number of buckets. */
  ghost predicate FirstHit(h: seq<nat>, z: nat) {
    |h| == 30 && z <= 30 && (forall j :: 0 <= j < z ==> h[j] == 0) && (z < 30 ==> h[z] > 0)
  }

  /** The bucket above the lowest that was hit most often, the lowest of them if there are several. */
  ghost predicate MostHit(h: seq<nat>, m: nat) {
    && |h| == 30 && 1 <= m < 30 && h[m] > 0
    && (forall j :: 1 <= j < 30 ==> h[j] <= h[m]) && (forall j :: 1 <= j < m ==> h[j] < h[m])
  }

  /** What is dropped, in numbers: nothing if the level seen most is below 600 ms; otherwise a quarter of
      that level, capped at two thirds (in whole buckets) of the lowest level seen, rounded to an even
      number of samples, provided that the ring holds more than three times as much. */
  lemma DropExactly(h: seq<nat>, cap: nat, having: nat, z: nat, m: nat, safe: nat, level: nat, skip: nat)
    requires FirstHit(h, z) && MostHit(h, m)
    requires 3 * safe <= 2 * z < 3 * (safe + 1) && level == (if m <= 4 * safe then m else 4 * safe)
    requires skip % 2 == 0 && 120 * skip <= cap * level + 120 < 120 * (skip + 2)
    ensures Drop(h, cap, having) == if m >= 6 && having > 3 * skip then skip else 0
  {
    ScanFinds(h, z, m);
    DropForExactly(cap, having, z, m, safe, level, skip);
  }

  lemma ScanFinds(h: seq<nat>, z: nat, m: nat)
    requires FirstHit(h, z) && MostHit(h, m)
    ensures EmptyRun(h, 30) == z && Fullest(h, 30) == m
  {
  }

  lemma DropForExactly(cap: nat, having: nat, z: nat, m: nat, safe: nat, level: nat, skip: nat)
    requires 3 * safe <= 2 * z < 3 * (safe + 1) && level == (if m <= 4 * safe then m else 4 * safe)
    requires skip % 2 == 0 && 120 * skip <= cap * level + 120 < 120 * (skip + 2)
    ensures DropFor(z, m, cap, having) == if m >= 6 && having > 3 * skip then skip else 0
  {
    assert z * 2 / 3 == safe;
    EvenSkip(cap * level, skip);
    assert Skip(safe, m, cap) == skip;
  }

  lemma EvenSkip(a: nat, skip: nat)
    requires skip % 2 == 0 && 120 * skip <= a + 120 < 120 * (skip + 2)
    ensures ClearLow(a / 120 + 1) == skip
  {
    DivBounds(a, 120);
    EvenBelow(a / 120 + 1, skip);
  }

  /** If no bucket above the lowest was hit, nothing is dropped. */
  lemma OnlyLowFills(h: seq<nat>, cap: nat, having: nat)
    requires |h| == 30 && forall j :: 1 <= j < 30 ==> h[j] == 0
    ensures Drop(h, cap, having) == 0
  {
    assert Fullest(h, 30) == 0;
  }

  /** If the lowest bucket was hit during the window, nothing is dropped. */
  lemma LowFillBlocksDrop(h: seq<nat>, cap: nat, having: nat)
    requires |h| == BUCKETS && h[0] > 0
    ensures Drop(h, cap, having) == 0
  {
    assert EmptyRun(h, BUCKETS) == 0;
    assert cap * 0 / (30 * N) == 0;
  }

  // ----- the buffer

  /** The last `n` elements. */
  function LastN<T>(s: seq<T>, n: nat): (r: seq<T>)
    ensures |r| == (if |s| < n then |s| else n) && forall i :: 0 <= i < |r| ==> r[i] == s[|s| - |r| + i]
  {
    if |s| <= n then s else s[|s| - n..]
  }

  /** When the last window ended: one time stamp for all buffers of the process. */
  class WindowClock {
    var tms: int

    constructor ()
      ensures tms == 0
    {
      tms := 0;
    }
  }

  class Buffer<T> {
    var ring: seq<T>
    var cap: nat
    var rate: nat
    const hist: array<nat>
    ghost var window: seq<Reading>

    ghost predicate Valid()
      reads this, hist
    {
      cap == 3 * rate && |ring| <= cap && hist.Length == BUCKETS && hist[..] == Histogram(window)
    }

    constructor ()
      ensures Valid() && fresh(hist) && ring == [] && rate == 48000 * 2 && window == []
    {
      ring, cap, rate, window := [], 48000 * 2 * AUDIO_BUFFER_MS / 1000, 48000 * 2, [];
      hist := new nat[BUCKETS](_ => 0);
    }

    /** A new rate empties the ring; the capacity stays three seconds of samples. */
    method Resize(sampleRate: nat, channels: nat)
      requires Valid()
      modifies this
      ensures Valid() && rate == sampleRate * channels && window == old(window)
      ensures ring == if rate == old(rate) then old(ring) else []
    {
      var capacity := sampleRate * channels * AUDIO_BUFFER_MS / 1000;
      if capacity != cap {
        ring, cap, rate := [], capacity, sampleRate * channels;
      }
    }

    /** Afterwards the ring holds the last `min(capacity, total)` samples of old then new. */
    method AppendPcm2(buffer: seq<T>) returns (having: nat)
      requires Valid()
      modifies this
      ensures Valid() && cap == old(cap) && rate == old(rate) && window == old(window)
      ensures ring == LastN(old(ring) + buffer, cap) && having == |ring|
    {
      if |buffer| > cap {
        ring := LastN(ring + buffer, cap);
        return cap;
      }
      having := |ring| + |buffer|;
      if having > cap {
        ring := ring[having - cap..];
      }
      ring := ring + buffer;
      return |ring|;
    }

    /** The playback callback takes samples from the front at any time. */
    method Consume(n: nat)
      requires Valid()
      modifies this
      ensures Valid() && cap == old(cap) && rate == old(rate) && window == old(window)
      ensures ring == old(ring)[if n < |old(ring)| then n else |old(ring)|..]
    {
      ring := ring[if n < |ring| then n else |ring|..];
    }

    /** The scan: finds the empty run and the fullest bucket while clearing all others. */
    method Scan() returns (zero: nat, max: nat)
      requires hist.Length == BUCKETS
      modifies hist
      ensures zero == EmptyRun(old(hist[..]), BUCKETS) && max == Fullest(old(hist[..]), BUCKETS)
      ensures forall j :: 0 <= j < BUCKETS && j != max ==> hist[j] == 0
    {
      ghost var h := hist[..];
      zero, max := 0, 0;
      for i := 0 to BUCKETS
        invariant zero == EmptyRun(h, i) && (if i == 0 then max == 0 else max == Fullest(h, i))
        invariant forall j :: i <= j < BUCKETS ==> hist[j] == h[j]
        invariant forall j :: 0 <= j < i && j != max ==> hist[j] == 0
        invariant i > 0 ==> hist[max] == if max == 0 then 0 else h[max]
      {
        if hist[i] == 0 && zero == i { zero := zero + 1; }
        if hist[i] > hist[max] {
          hist[max] := 0;
          max := i;
        } else {
          hist[i] := 0;
        }
      }
    }

    /** Counts one reading. */
    method Record(having: nat)
      requires Valid() && 0 < rate
      modifies this`window, hist
      ensures Valid() && window == old(window) + [Reading(having, rate)]
    {
      var i := having * 10 / rate;
      if i > 29 { i := 29; }
      WindowGrows(window, Reading(having, rate));
      hist[i] := hist[i] + 1;
      window := window + [Reading(having, rate)];
    }

    /** The end of a window: decides, clears the histogram, and drops the oldest samples. */
    method Evaluate() returns (dropped: nat)
      requires Valid()
      modifies this`window, this`ring, hist
      ensures Valid() && window == [] && (forall b :: 0 <= b < BUCKETS ==> hist[b] == 0)
      ensures dropped == Drop(Histogram(old(window)), cap, |old(ring)|)
      ensures dropped <= |old(ring)| && ring == old(ring)[dropped..]
    {
      window := [];
      var zero, max := Scan();
      zero := zero * 2 / 3;
      hist[max] := 0;
      assert hist[..] == Histogram([]);
      if max < 6 { return 0; }
      dropped := DropOldest(zero, max);
    }

    method DropOldest(zero: nat, max0: nat) returns (dropped: nat)
      requires 6 <= max0
      modifies this`ring
      ensures dropped <= |old(ring)| && ring == old(ring)[dropped..]
      ensures var skip := Skip(zero, max0, cap); dropped == if |old(ring)| > skip * 3 && skip > 0 then skip else 0
    {
      var max := max0;
      if max > zero * N { max := zero * N; }
      assert max == Level(zero, max0);
      var skip := ClearLow(cap * max / (30 * N) + 1);
      if |ring| > skip * 3 && skip > 0 {
        ring := ring[skip..];
        return skip;
      }
      return 0;
    }

    /** Records a reading; once per window, decides and drops, and starts a new window. */
    method TryShrink(clock: WindowClock, having: nat, now: int) returns (dropped: nat)
      requires Valid() && 0 < rate
      modifies this, hist, clock
      ensures Valid() && cap == old(cap) && rate == old(rate)
      ensures var due := old(clock.tms) != 0 && now >= old(clock.tms) + 12000;
              var readings := old(window) + [Reading(having, rate)];
              && window == (if due then [] else readings)
              && clock.tms == (if due || old(clock.tms) == 0 then now else old(clock.tms))
              && (due ==> forall b :: 0 <= b < BUCKETS ==> hist[b] == 0)
              && dropped == (if due then Drop(Histogram(readings), cap, |old(ring)|) else 0)
              && dropped <= |old(ring)| && ring == old(ring)[dropped..]
    {
      Record(having);
      if clock.tms == 0 {
        clock.tms := now;
        return 0;
      } else if now < clock.tms + WINDOW_MS {
        return 0;
      }
      clock.tms := now;
      dropped := Evaluate();
    }

    /** Append, then record the fill seen by the append; playback may run in between. Every sample
        that leaves the ring leaves it from the front: overwritten, played or dropped. */
    method AppendPcm(clock: WindowClock, buffer: seq<T>, now: int, playedMeanwhile: nat) returns (dropped: nat)
      requires Valid() && 0 < rate
      modifies this, hist, clock
      ensures Valid() && rate == old(rate) && cap == old(cap)
      ensures var due := old(clock.tms) != 0 && now >= old(clock.tms) + 12000;
              var full := LastN(old(ring) + buffer, cap);
              var left := full[if playedMeanwhile < |full| then playedMeanwhile else |full|..];
              var readings := old(window) + [Reading(|full|, rate)];
              && window == (if due then [] else readings)
              && clock.tms == (if due || old(clock.tms) == 0 then now else old(clock.tms))
              && dropped == (if due then Drop(Histogram(readings), cap, |left|) else 0)
              && dropped <= |left| && ring == left[dropped..]
    {
      var having := AppendPcm2(buffer);
      Consume(playedMeanwhile);
      dropped := TryShrink(clock, having, now);
    }
  }

  lemma WindowGrows(window: seq<Reading>, r: Reading)
    ensures var h, b := Histogram(window), Bucket(r.having, r.rate); Histogram(window + [r]) == h[b := h[b] + 1]
  {
    assert (window + [r])[..|window|] == window;
  }
}

/** The daemon's cache of physical-address mappings: eight entries, evicted round robin. */
module MapCache {
  import opened Seqs

  const CAPACITY := 8

  type Phys = nat
  type Ptr = nat

  datatype Entry = Entry(phys: Phys, ptr: Ptr)

  /** Calls to the vendor library, oldest first. */
  datatype Event = Mapped(phys: Phys, ptr: Ptr) | Unmapped(ptr: Ptr)

  datatype State = State(entries: seq<Entry>, next: nat, log: seq<Event>)

  /** `granted` is what the mapping call returns if it is made: `Null` or an address. */
  datatype Grant = Null | Granted(ptr: Ptr)

  datatype Op = Lookup(phys: Phys, granted: Grant) | Clear

  // ----- the state machine

  function Find(entries: seq<Entry>, phys: Phys): (i: nat)
    ensures i <= |entries| && (i < |entries| ==> entries[i].phys == phys)
    ensures forall k :: 0 <= k < i ==> entries[k].phys != phys
  {
    if |entries| == 0 || entries[0].phys == phys then 0 else 1 + Find(entries[1..], phys)
  }

  predicate Hit(s: State, phys: Phys) { Find(s.entries, phys) < |s.entries| }

  /** Slot that the next eviction overwrites. */
  function Victim(s: State): nat { s.next % CAPACITY }

  function AfterLookup(s: State, phys: Phys, granted: Grant): (t: State)
    requires |s.entries| <= CAPACITY
  {
    if Hit(s, phys) || granted.Null? then s
    else if |s.entries| < CAPACITY then
      State(s.entries + [Entry(phys, granted.ptr)], s.next, s.log + [Mapped(phys, granted.ptr)])
    else
      State(s.entries[Victim(s) := Entry(phys, granted.ptr)], s.next + 1,
            s.log + [Mapped(phys, granted.ptr), Unmapped(s.entries[Victim(s)].ptr)])
  }

  function Returned(s: State, phys: Phys, granted: Grant): Grant {
    if Hit(s, phys) then Granted(s.entries[Find(s.entries, phys)].ptr) else granted
  }

  function Unmaps(entries: seq<Entry>): seq<Event> {
    if entries == [] then [] else [Unmapped(entries[0].ptr)] + Unmaps(entries[1..])
  }

  function AfterClear(s: State): State {
    State([], 0, s.log + Unmaps(s.entries))
  }

  function Step(s: State, op: Op): State
    requires |s.entries| <= CAPACITY
  {
    match op
    case Lookup(phys, granted) => AfterLookup(s, phys, granted)
    case Clear => AfterClear(s)
  }

  // ----- live mappings, replayed from the log alone

  /** The mappings that exist after the logged calls. */
  function Live(log: seq<Event>): map<Ptr, Phys> {
    if log == [] then map[]
    else
      var before := Live(log[..|log| - 1]);
      match log[|log| - 1]
      case Mapped(phys, ptr) => before[ptr := phys]
      case Unmapped(ptr) => before - {ptr}
  }

  /** Every unmapped address was mapped at that moment: nothing is unmapped twice. */
  predicate Legal(log: seq<Event>) {
    log == [] ||
    (Legal(log[..|log| - 1]) && (log[|log| - 1].Unmapped? ==> log[|log| - 1].ptr in Live(log[..|log| - 1])))
  }

  lemma LiveSnoc(log: seq<Event>, e: Event)
    ensures Live(log + [e]) == if e.Mapped? then Live(log)[e.ptr := e.phys] else Live(log) - {e.ptr}
    ensures Legal(log + [e]) <==> Legal(log) && (e.Unmapped? ==> e.ptr in Live(log))
  {
    assert (log + [e])[..|log|] == log;
  }

  /** The library never hands out an address that is currently mapped. */
  predicate Fresh(s: State, op: Op) {
    op.Lookup? && op.granted.Granted? ==> op.granted.ptr !in Live(s.log)
  }

  ghost predicate Distinct(entries: seq<Entry>) {
    forall i, k :: 0 <= i < k < |entries| ==> entries[i].phys != entries[k].phys && entries[i].ptr != entries[k].ptr
  }

  /** Each cached entry is live for its key, and nothing else is live. */
  ghost predicate Owns(entries: seq<Entry>, live: map<Ptr, Phys>) {
    && (forall e :: e in entries ==> e.ptr in live && live[e.ptr] == e.phys)
    && (forall p :: p in live ==> Entry(live[p], p) in entries)
  }

  ghost predicate Inv(s: State) {
    && |s.entries| <= CAPACITY && (|s.entries| < CAPACITY ==> s.next == 0)
    && Distinct(s.entries) && Legal(s.log) && Owns(s.entries, Live(s.log))
  }

  lemma InvAppend(s: State, phys: Phys, ptr: Ptr)
    requires Inv(s) && |s.entries| < CAPACITY && !Hit(s, phys) && ptr !in Live(s.log)
    ensures Inv(AfterLookup(s, phys, Granted(ptr)))
  {
    LiveSnoc(s.log, Mapped(phys, ptr));
    PtrsLive(s);
    OwnsAppended(s.entries, Entry(phys, ptr), Live(s.log));
  }

  lemma OwnsAppended(entries: seq<Entry>, e: Entry, live: map<Ptr, Phys>)
    requires Owns(entries, live) && e.ptr !in live
    ensures Owns(entries + [e], live[e.ptr := e.phys])
  {
    var after, live' := entries + [e], live[e.ptr := e.phys];
    forall x | x in after ensures x.ptr in live' && live'[x.ptr] == x.phys { assert x in entries || x == e; }
    forall p | p in live' ensures Entry(live'[p], p) in after {
      if p == e.ptr { assert after[|entries|] == e; } else { assert Entry(live[p], p) in entries; }
    }
  }

  lemma PtrsLive(s: State)
    requires Inv(s)
    ensures forall i :: 0 <= i < |s.entries| ==> s.entries[i].ptr in Live(s.log)
  {
    forall i | 0 <= i < |s.entries| ensures s.entries[i].ptr in Live(s.log) { assert s.entries[i] in s.entries; }
  }

  lemma InvEvict(s: State, phys: Phys, ptr: Ptr)
    requires Inv(s) && |s.entries| == CAPACITY && !Hit(s, phys) && ptr !in Live(s.log)
    ensures Inv(AfterLookup(s, phys, Granted(ptr)))
  {
    var v := Victim(s);
    var gone := s.entries[v].ptr;
    LiveSnoc(s.log, Mapped(phys, ptr));
    LiveSnoc(s.log + [Mapped(phys, ptr)], Unmapped(gone));
    PtrsLive(s);
    var t := AfterLookup(s, phys, Granted(ptr));
    assert s.log + [Mapped(phys, ptr)] + [Unmapped(gone)] == t.log;
    OwnsReplaced(s.entries, v, Entry(phys, ptr), Live(s.log));
  }

  lemma OwnsReplaced(entries: seq<Entry>, v: nat, e: Entry, live: map<Ptr, Phys>)
    requires v < |entries| && Distinct(entries) && Owns(entries, live) && e.ptr !in live
    ensures Owns(entries[v := e], live[e.ptr := e.phys] - {entries[v].ptr})
  {
    var after, live' := entries[v := e], live[e.ptr := e.phys] - {entries[v].ptr};
    forall x | x in after ensures x.ptr in live' && live'[x.ptr] == x.phys {
      var i :| 0 <= i < |after| && after[i] == x;
      if i == v { assert entries[v] in entries; } else { assert entries[i] in entries; }
    }
    forall p | p in live' ensures Entry(live'[p], p) in after {
      if p == e.ptr { assert after[v] == e; } else {
        var i :| 0 <= i < |entries| && entries[i] == Entry(live[p], p);
        assert after[i] == entries[i];
      }
    }
  }

  /** Unmapping the entries one after the other leaves exactly the remaining ones live. */
  lemma {:induction false} ClearFrom(entries: seq<Entry>, log: seq<Event>)
    requires Distinct(entries) && Legal(log) && Owns(entries, Live(log))
    ensures Legal(log + Unmaps(entries)) && Live(log + Unmaps(entries)) == map[]
    decreases |entries|
  {
    if entries == [] {
      assert log + Unmaps(entries) == log;
      EmptyOwns(Live(log));
    } else {
      var call, rest := Unmapped(entries[0].ptr), entries[1..];
      LiveSnoc(log, call);
      OwnsDropped(entries, Live(log));
      ClearFrom(rest, log + [call]);
      Regroup(log, [call], Unmaps(rest));
    }
  }

  lemma EmptyOwns(live: map<Ptr, Phys>)
    requires Owns([], live)
    ensures live == map[]
  {
    assert forall p :: p !in live;
  }

  lemma OwnsDropped(entries: seq<Entry>, live: map<Ptr, Phys>)
    requires entries != [] && Distinct(entries) && Owns(entries, live)
    ensures entries[0].ptr in live && Distinct(entries[1..]) && Owns(entries[1..], live - {entries[0].ptr})
  {
    var e, rest := entries[0], entries[1..];
    assert e in entries;
    forall x | x in rest ensures x.ptr in live && live[x.ptr] == x.phys && x.ptr != e.ptr {
      var i :| 0 <= i < |rest| && rest[i] == x;
      assert x == entries[i + 1];
    }
    forall p | p in live - {e.ptr} ensures Entry(live[p], p) in rest {
      var i :| 0 <= i < |entries| && entries[i] == Entry(live[p], p);
      assert rest[i - 1] == entries[i];
    }
  }

  lemma InvClear(s: State)
    requires Inv(s)
    ensures Inv(AfterClear(s)) && Live(AfterClear(s).log) == map[]
  {
    ClearFrom(s.entries, s.log);
  }

  lemma InvStep(s: State, op: Op)
    requires Inv(s) && Fresh(s, op)
    ensures Inv(Step(s, op))
  {
    match op
    case Lookup(phys, granted) =>
      if !Hit(s, phys) && granted.Granted? {
        if |s.entries| < CAPACITY { InvAppend(s, phys, granted.ptr); } else { InvEvict(s, phys, granted.ptr); }
      }
    case Clear => InvClear(s);
  }

  /** A lookup returns an address that is live for the key asked for, or nothing; a hit makes no
      call, a successful miss maps exactly the key asked for. */
  lemma ReturnedIsLive(s: State, phys: Phys, granted: Grant)
    requires Inv(s) && Fresh(s, Lookup(phys, granted))
    ensures var r, t := Returned(s, phys, granted), AfterLookup(s, phys, granted);
            && (r.Granted? ==> r.ptr in Live(t.log) && Live(t.log)[r.ptr] == phys)
            && (r.Null? <==> !Hit(s, phys) && granted.Null?)
            && (Hit(s, phys) ==> t == s)
  {
    var t := AfterLookup(s, phys, granted);
    InvStep(s, Lookup(phys, granted));
    if Hit(s, phys) {
      assert s.entries[Find(s.entries, phys)] in t.entries;
    } else if granted.Granted? {
      var slot := if |s.entries| < CAPACITY then |s.entries| else Victim(s);
      assert t.entries[slot] == Entry(phys, granted.ptr);
      assert t.entries[slot] in t.entries;
    }
  }

  // ----- every run

  const EMPTY := State([], 0, [])

  ghost predicate GoodRun(s: State, ops: seq<Op>)
    requires Inv(s)
    decreases |ops|
  {
    ops == [] || (Fresh(s, ops[0]) && (InvStep(s, ops[0]); GoodRun(Step(s, ops[0]), ops[1..])))
  }

  ghost function Run(s: State, ops: seq<Op>): (t: State)
    requires Inv(s) && GoodRun(s, ops)
    ensures Inv(t)
    decreases |ops|
  {
    if ops == [] then s else (InvStep(s, ops[0]); Run(Step(s, ops[0]), ops[1..]))
  }

  /** The eviction counter counts at most the lookups: it stays in range of a 32-bit integer in every
      run of fewer than 2^31 calls. */
  lemma {:induction false} EvictionCounterBound(s: State, ops: seq<Op>)
    requires Inv(s) && GoodRun(s, ops)
    ensures Run(s, ops).next <= s.next + |ops|
    decreases |ops|
  {
    if ops != [] {
      InvStep(s, ops[0]);
      EvictionCounterBound(Step(s, ops[0]), ops[1..]);
    }
  }

  /** In every run from the empty cache: keys are distinct, every entry holds the live mapping of
      its key, the live mappings are exactly the cached ones, at most eight, and no address was
      unmapped unless it was mapped. */
  lemma RunsAreSafe(ops: seq<Op>)
    requires GoodRun(EMPTY, ops)
    ensures var t := Run(EMPTY, ops);
            && Distinct(t.entries) && |t.entries| <= CAPACITY && Legal(t.log)
            && Owns(t.entries, Live(t.log)) && |Live(t.log)| == |t.entries|
  {
    var t := Run(EMPTY, ops);
    LiveCount(t.entries, Live(t.log));
  }

  lemma {:induction false} LiveCount(entries: seq<Entry>, live: map<Ptr, Phys>)
    requires Distinct(entries) && Owns(entries, live)
    ensures |live| == |entries|
    decreases |entries|
  {
    if entries == [] {
      EmptyOwns(live);
    } else {
      OwnsDropped(entries, live);
      var smaller := live - {entries[0].ptr};
      LiveCount(entries[1..], smaller);
      assert live.Keys == smaller.Keys + {entries[0].ptr};
      assert |live.Keys| == |smaller.Keys| + 1;
    }
  }

  /** After the Y and then the VU lookup, the Y address is unmapped in exactly one situation: Y was
      a hit in the slot that is evicted next, the cache was full, and VU was a miss that mapped. */
  lemma YSurvivesVu(s: State, y: Phys, yGrant: Grant, vu: Phys, vuGrant: Grant)
    requires Inv(s) && Fresh(s, Lookup(y, yGrant)) && Returned(s, y, yGrant).Granted?
    requires Fresh(AfterLookup(s, y, yGrant), Lookup(vu, vuGrant))
    ensures var u := AfterLookup(s, y, yGrant);
            |u.entries| <= CAPACITY &&
            (Returned(s, y, yGrant).ptr !in Live(AfterLookup(u, vu, vuGrant).log) <==>
             && Hit(s, y) && Find(s.entries, y) == Victim(s)
             && |s.entries| == CAPACITY && !Hit(s, vu) && vuGrant.Granted?)
  {
    var u := AfterLookup(s, y, yGrant);
    InvStep(s, Lookup(y, yGrant));
    YSlotFacts(s, y, yGrant);
    EvictedOrKept(u, YSlot(s, y), vu, vuGrant);
  }

  /** The slot that holds `y` once it has been looked up. */
  function YSlot(s: State, y: Phys): nat {
    if Hit(s, y) then Find(s.entries, y) else if |s.entries| < CAPACITY then |s.entries| else Victim(s)
  }

  lemma YSlotFacts(s: State, y: Phys, yGrant: Grant)
    requires Inv(s) && Returned(s, y, yGrant).Granted?
    ensures var u, slot := AfterLookup(s, y, yGrant), YSlot(s, y);
            && slot < |u.entries| && u.entries[slot] == Entry(y, Returned(s, y, yGrant).ptr)
            && (|u.entries| == CAPACITY && slot == Victim(u) <==>
                Hit(s, y) && |s.entries| == CAPACITY && slot == Victim(s))
  {
  }

  /** A lookup unmaps the entry of a slot exactly when it misses, maps, and evicts that slot. */
  lemma EvictedOrKept(u: State, slot: nat, phys: Phys, granted: Grant)
    requires Inv(u) && slot < |u.entries| && Fresh(u, Lookup(phys, granted))
    ensures u.entries[slot].ptr !in Live(AfterLookup(u, phys, granted).log) <==>
            !Hit(u, phys) && granted.Granted? && |u.entries| == CAPACITY && slot == Victim(u)
  {
    var t, p := AfterLookup(u, phys, granted), u.entries[slot].ptr;
    InvStep(u, Lookup(phys, granted));
    PtrsLive(u);
    PtrsLive(t);
    if !Hit(u, phys) && granted.Granted? && |u.entries| == CAPACITY && slot == Victim(u) {
      assert forall e :: e in t.entries ==> e.ptr != p;
    } else {
      assert t.entries[slot] == u.entries[slot];
    }
  }

  /** The cache after `n` different addresses were mapped. */
  ghost predicate Filled(s: State, n: nat) {
    Inv(s) && |s.entries| == n && s.next == 0 && forall i :: 0 <= i < n ==> s.entries[i] == Entry(i, i)
  }

  lemma FilledStep(s: State, n: nat)
    requires Filled(s, n) && n < CAPACITY
    ensures Fresh(s, Lookup(n, Granted(n))) && Filled(AfterLookup(s, n, Granted(n)), n + 1)
  {
    assert !Hit(s, n);
    assert n !in Live(s.log);
    InvAppend(s, n, n);
  }

  lemma {:induction false} RunSnoc(s: State, ops: seq<Op>, op: Op)
    requires Inv(s) && GoodRun(s, ops) && Fresh(Run(s, ops), op)
    ensures GoodRun(s, ops + [op]) && Run(s, ops + [op]) == Step(Run(s, ops), op)
    decreases |ops|
  {
    if ops == [] {
      assert ops + [op] == [op];
    } else {
      InvStep(s, ops[0]);
      assert (ops + [op])[1..] == ops[1..] + [op];
      RunSnoc(Step(s, ops[0]), ops[1..], op);
    }
  }

  lemma {:induction false} FilledReachable(n: nat) returns (ops: seq<Op>)
    requires n <= CAPACITY
    ensures GoodRun(EMPTY, ops) && Filled(Run(EMPTY, ops), n)
  {
    ops := [];
    if n > 0 {
      ops := FilledReachable(n - 1);
      FilledStep(Run(EMPTY, ops), n - 1);
      RunSnoc(EMPTY, ops, Lookup(n - 1, Granted(n - 1)));
      ops := ops + [Lookup(n - 1, Granted(n - 1))];
    }
  }

  /** The loss can happen: there is a run from the empty cache after which re-reading the first
      address and then mapping a ninth unmaps the address just returned for the first. */
  lemma YCanBeLost() returns (ops: seq<Op>, s: State)
    ensures GoodRun(EMPTY, ops) && s == Run(EMPTY, ops)
    ensures Returned(s, 0, Null) == Granted(0) && AfterLookup(s, 0, Null) == s
    ensures Fresh(s, Lookup(CAPACITY, Granted(CAPACITY)))
    ensures 0 in Live(s.log) && 0 !in Live(AfterLookup(s, CAPACITY, Granted(CAPACITY)).log)
  {
    ops := FilledReachable(CAPACITY);
    s := Run(EMPTY, ops);
    assert s.entries[0] == Entry(0, 0);
    PtrsLive(s);
    assert CAPACITY !in Live(s.log);
    EvictedOrKept(s, 0, CAPACITY, Granted(CAPACITY));
  }

  // ----- the order of evictions, on the logged calls alone

  /** The mappings made by the logged calls, oldest first. */
  function Made(log: seq<Event>): seq<Entry> {
    if log == [] then []
    else
      var last := log[|log| - 1];
      Made(log[..|log| - 1]) + if last.Mapped? then [Entry(last.phys, last.ptr)] else []
  }

  /** The addresses unmapped by the logged calls, oldest first. */
  function Dropped(log: seq<Event>): seq<Ptr> {
    if log == [] then []
    else
      var last := log[|log| - 1];
      Dropped(log[..|log| - 1]) + if last.Unmapped? then [last.ptr] else []
  }

  lemma LogSnoc(log: seq<Event>, e: Event)
    ensures Made(log + [e]) == Made(log) + if e.Mapped? then [Entry(e.phys, e.ptr)] else []
    ensures Dropped(log + [e]) == Dropped(log) + if e.Unmapped? then [e.ptr] else []
  {
    assert (log + [e])[..|log|] == log;
  }

  /** The table after the calls `log`, made on an empty table without a clear: mapping number `k` is in
      slot `k` modulo eight until eight more have been made. */
  ghost predicate InTurn(s: State, log: seq<Event>) {
    var m := Made(log);
    && |s.entries| == (if |m| < 8 then |m| else 8) && s.next == |m| - |s.entries|
    && (forall k :: s.next <= k < |m| ==> s.entries[k % 8] == m[k])
    && |Dropped(log)| == s.next && (forall k :: 0 <= k < s.next ==> Dropped(log)[k] == m[k].ptr)
  }

  /** The calls that a lookup makes. */
  function Calls(s: State, phys: Phys, granted: Grant): seq<Event>
    requires |s.entries| <= CAPACITY
  {
    if Hit(s, phys) || granted.Null? then []
    else if |s.entries| < CAPACITY then [Mapped(phys, granted.ptr)]
    else [Mapped(phys, granted.ptr), Unmapped(s.entries[Victim(s)].ptr)]
  }

  lemma InTurnAppend(s: State, log: seq<Event>, phys: Phys, ptr: Ptr)
    requires |s.entries| < CAPACITY && InTurn(s, log) && !Hit(s, phys)
    ensures InTurn(AfterLookup(s, phys, Granted(ptr)), log + [Mapped(phys, ptr)])
  {
    LogSnoc(log, Mapped(phys, ptr));
    var m, e := Made(log), Entry(phys, ptr);
    forall k | 0 <= k < |m| + 1 ensures (s.entries + [e])[k % 8] == (m + [e])[k] {
      assert k % 8 == k;
      if k < |m| { assert s.entries[k % 8] == m[k]; }
    }
  }

  lemma InTurnEvict(s: State, log: seq<Event>, phys: Phys, ptr: Ptr)
    requires |s.entries| == CAPACITY && InTurn(s, log) && !Hit(s, phys)
    ensures InTurn(AfterLookup(s, phys, Granted(ptr)), log + [Mapped(phys, ptr), Unmapped(s.entries[Victim(s)].ptr)])
  {
    var gone := Unmapped(s.entries[Victim(s)].ptr);
    LogSnoc(log, Mapped(phys, ptr));
    LogSnoc(log + [Mapped(phys, ptr)], gone);
    assert log + [Mapped(phys, ptr)] + [gone] == log + [Mapped(phys, ptr), gone];
    TurnOver(s.entries, Made(log), s.next, Entry(phys, ptr));
  }

  lemma InTurnStep(s: State, log: seq<Event>, phys: Phys, granted: Grant)
    requires |s.entries| <= CAPACITY && InTurn(s, log)
    ensures AfterLookup(s, phys, granted).log == s.log + Calls(s, phys, granted)
    ensures InTurn(AfterLookup(s, phys, granted), log + Calls(s, phys, granted))
  {
    if Hit(s, phys) || granted.Null? {
      assert log + [] == log && s.log + [] == s.log;
    } else if |s.entries| < CAPACITY {
      InTurnAppend(s, log, phys, granted.ptr);
    } else {
      InTurnEvict(s, log, phys, granted.ptr);
    }
  }

  /** Overwriting the slot that is next in turn replaces the oldest of eight by the newest. */
  lemma TurnOver(entries: seq<Entry>, m: seq<Entry>, next: nat, e: Entry)
    requires |entries| == 8 && |m| == next + 8 && forall k :: next <= k < |m| ==> entries[k % 8] == m[k]
    ensures entries[next % 8] == m[next]
    ensures forall k :: next + 1 <= k < |m| + 1 ==> entries[next % 8 := e][k % 8] == (m + [e])[k]
  {
    forall k | next + 1 <= k < |m| + 1 ensures entries[next % 8 := e][k % 8] == (m + [e])[k] {
      if k < |m| { assert k % 8 != next % 8; } else { assert k % 8 == next % 8; }
    }
  }

  ghost predicate OnlyLookups(ops: seq<Op>) { forall op :: op in ops ==> op.Lookup? }

  lemma {:induction false} RunInTurn(s: State, log: seq<Event>, ops: seq<Op>) returns (calls: seq<Event>)
    requires Inv(s) && InTurn(s, log) && GoodRun(s, ops) && OnlyLookups(ops)
    ensures Run(s, ops).log == s.log + calls && InTurn(Run(s, ops), log + calls)
    decreases |ops|
  {
    calls := [];
    if ops == [] {
      assert s.log + calls == s.log && log + calls == log;
    } else {
      assert ops[0] in ops;
      InvStep(s, ops[0]);
      InTurnStep(s, log, ops[0].phys, ops[0].granted);
      var first := Calls(s, ops[0].phys, ops[0].granted);
      var rest := RunInTurn(Step(s, ops[0]), log + first, ops[1..]);
      calls := first + rest;
      Regroup(s.log, first, rest);
      Regroup(log, first, rest);
    }
  }

  /** Mapping number `k` is one of the youngest eight. */
  predicate Young(made: seq<Entry>, k: nat) { k < |made| <= k + 8 }

  lemma YoungInTable(t: State, log: seq<Event>, k: nat)
    requires InTurn(t, log) && Young(Made(log), k)
    ensures Made(log)[k] in t.entries
  {
    assert t.entries[k % 8] == Made(log)[k];
  }

  lemma TableIsYoung(t: State, log: seq<Event>, i: nat) returns (k: nat)
    requires InTurn(t, log) && i < |t.entries|
    ensures Young(Made(log), k) && Made(log)[k] == t.entries[i]
  {
    if |Made(log)| < 8 {
      k := i;
      assert k % 8 == k;
    } else {
      k := SlotHolder(i, |Made(log)|);
    }
    assert t.entries[k % 8] == Made(log)[k];
  }

  /** An address is in the table if and only if one of the youngest eight mappings is its own. */
  lemma HitMeansYoung(t: State, log: seq<Event>, phys: Phys)
    requires InTurn(t, log)
    ensures Hit(t, phys) <==> exists k: nat :: Young(Made(log), k) && Made(log)[k].phys == phys
  {
    if Hit(t, phys) { var k := TableIsYoung(t, log, Find(t.entries, phys)); }
    if k: nat :| Young(Made(log), k) && Made(log)[k].phys == phys {
      YoungInTable(t, log, k);
      var i :| 0 <= i < |t.entries| && t.entries[i] == Made(log)[k];
    }
  }

  /** From an empty table, in every run up to the next clear, mappings are undone in the order in which
      they were made, each when eight younger ones have been made: the k-th address unmapped is that of
      the k-th mapping, and the youngest eight mappings are the ones in the table. */
  lemma OldestGoesFirst(s: State, ops: seq<Op>) returns (calls: seq<Event>)
    requires Inv(s) && s.entries == [] && GoodRun(s, ops) && OnlyLookups(ops)
    ensures Run(s, ops).log == s.log + calls
    ensures var made, gone := Made(calls), Dropped(calls);
            && |gone| == (if |made| <= 8 then 0 else |made| - 8)
            && (forall k :: 0 <= k < |gone| ==> gone[k] == made[k].ptr)
            && (forall k: nat :: Young(made, k) ==> made[k] in Run(s, ops).entries)
            && |Run(s, ops).entries| == |made| - |gone|
  {
    calls := RunInTurn(s, [], ops);
    assert [] + calls == calls;
    forall k: nat | Young(Made(calls), k) ensures Made(calls)[k] in Run(s, ops).entries {
      YoungInTable(Run(s, ops), calls, k);
    }
  }

  lemma VictimIsOldest(t: State, log: seq<Event>, y: Phys)
    requires Inv(t) && InTurn(t, log)
    ensures Hit(t, y) && Find(t.entries, y) == Victim(t) && |t.entries| == CAPACITY <==>
            |Made(log)| >= 8 && Made(log)[|Made(log)| - 8].phys == y
  {
    if |Made(log)| >= 8 {
      assert t.entries[t.next % 8] == Made(log)[t.next];
    }
  }

  /** So the Y address is lost to the VU lookup if and only if Y's mapping is the oldest of eight, and
      VU is not among the eight and gets mapped. */
  lemma YLostByAge(s: State, ops: seq<Op>, y: Phys, yGrant: Grant, vu: Phys, vuGrant: Grant)
      returns (calls: seq<Event>)
    requires Inv(s) && s.entries == [] && GoodRun(s, ops) && OnlyLookups(ops)
    requires Fresh(Run(s, ops), Lookup(y, yGrant)) && Returned(Run(s, ops), y, yGrant).Granted?
    requires Fresh(AfterLookup(Run(s, ops), y, yGrant), Lookup(vu, vuGrant))
    ensures Run(s, ops).log == s.log + calls
    ensures var t, made := Run(s, ops), Made(calls);
            var u := AfterLookup(t, y, yGrant);
            |u.entries| <= CAPACITY &&
            (Returned(t, y, yGrant).ptr !in Live(AfterLookup(u, vu, vuGrant).log) <==>
             && |made| >= 8 && made[|made| - 8].phys == y && vuGrant.Granted?
             && !exists k: nat :: Young(made, k) && made[k].phys == vu)
  {
    calls := RunInTurn(s, [], ops);
    assert [] + calls == calls;
    var t := Run(s, ops);
    YSurvivesVu(t, y, yGrant, vu, vuGrant);
    VictimIsOldest(t, calls, y);
    HitMeansYoung(t, calls, vu);
  }

  /** One of eight consecutive numbers leaves remainder `i`. */
  lemma SlotHolder(i: nat, n: nat) returns (k: nat)
    requires i < 8 <= n
    ensures n - 8 <= k < n && k % 8 == i
  {
    var r := (n - 8) % 8;
    k := n - 8 + if i >= r then i - r else 8 + i - r;
  }

  // ----- few addresses

  ghost function Keys(entries: seq<Entry>): set<Phys> { set e | e in entries :: e.phys }

  lemma {:induction false} KeysCount(entries: seq<Entry>)
    requires Distinct(entries)
    ensures |Keys(entries)| == |entries|
  {
    if entries != [] {
      var rest, e := entries[..|entries| - 1], entries[|entries| - 1];
      KeysCount(rest);
      assert entries == rest + [e];
      assert Keys(entries) == Keys(rest) + {e.phys};
    }
  }

  ghost predicate UsesOnly(ops: seq<Op>, addresses: set<Phys>) {
    forall op :: op in ops ==> op.Lookup? && op.phys in addresses
  }

  lemma SubsetSize<T>(a: set<T>, b: set<T>)
    requires a <= b
    ensures |a| <= |b|
  {
    assert b == a + (b - a);
  }

  /** A full cache whose keys lie in a set of eight has every address of the set. */
  lemma FullMeansHit(s: State, phys: Phys, addresses: set<Phys>)
    requires Inv(s) && |addresses| <= CAPACITY && Keys(s.entries) <= addresses
    requires phys in addresses && |s.entries| == CAPACITY
    ensures Hit(s, phys)
  {
    if !Hit(s, phys) {
      KeysCount(s.entries);
      assert phys !in Keys(s.entries);
      SubsetSize(Keys(s.entries) + {phys}, addresses);
    }
  }

  /** With at most eight addresses in use since the last clear, lookups only ever add entries: every
      address handed out stays mapped until the next clear. */
  lemma {:induction false} FewAddressesNeverEvict(s: State, ops: seq<Op>, addresses: set<Phys>)
    requires Inv(s) && GoodRun(s, ops) && UsesOnly(ops, addresses)
    requires |addresses| <= CAPACITY && Keys(s.entries) <= addresses
    ensures s.entries <= Run(s, ops).entries && Keys(Run(s, ops).entries) <= addresses
    ensures forall p :: p in Live(s.log) ==> p in Live(Run(s, ops).log)
    decreases |ops|
  {
    if ops != [] {
      var op := ops[0];
      assert op in ops;
      if |s.entries| == CAPACITY { FullMeansHit(s, op.phys, addresses); }
      InvStep(s, op);
      var t := Step(s, op);
      assert s.entries <= t.entries;
      FewAddressesNeverEvict(t, ops[1..], addresses);
      PrefixLive(s, Run(s, ops));
    }
  }

  lemma PrefixLive(s: State, t: State)
    requires Inv(s) && Inv(t) && s.entries <= t.entries
    ensures forall p :: p in Live(s.log) ==> p in Live(t.log)
  {
    forall p | p in Live(s.log) ensures p in Live(t.log) {
      var e := Entry(Live(s.log)[p], p);
      assert e in s.entries && e in t.entries;
    }
  }

  // ----- the in-place implementation

  class Cache {
    const slots: array<Entry>
    var n: nat
    var next: nat
    ghost var log: seq<Event>

    constructor ()
      ensures Valid() && Abs() == EMPTY && fresh(slots)
    {
      slots := new Entry[CAPACITY](_ => Entry(0, 0));
      n, next, log := 0, 0, [];
    }

    ghost predicate Valid()
      reads this
    {
      slots.Length == CAPACITY && n <= CAPACITY
    }

    ghost function Abs(): State
      requires Valid()
      reads this, slots
    {
      State(slots[..n], next, log)
    }

    method MapGet(phys: Phys, granted: Grant) returns (p: Grant)
      requires Valid()
      modifies this, slots
      ensures Valid() && p == old(Returned(Abs(), phys, granted))
      ensures Abs() == old(AfterLookup(Abs(), phys, granted))
    {
      for i := 0 to n
        invariant forall k :: 0 <= k < i ==> slots[k].phys != phys
        invariant n == old(n) && next == old(next) && log == old(log) && slots[..] == old(slots[..])
      {
        if slots[i].phys == phys { return Granted(slots[i].ptr); }
      }
      if granted.Null? { return Null; }
      log := log + [Mapped(phys, granted.ptr)];
      if n < CAPACITY {
        slots[n] := Entry(phys, granted.ptr);
        n := n + 1;
      } else {
        var slot := next % CAPACITY;
        next := next + 1;
        log := log + [Unmapped(slots[slot].ptr)];
        slots[slot] := Entry(phys, granted.ptr);
      }
      p := granted;
    }

    method Clear()
      requires Valid()
      modifies this
      ensures Valid() && Abs() == old(AfterClear(Abs()))
    {
      ghost var all := slots[..n];
      for i := 0 to n
        invariant n == old(n) && slots[..n] == all && log + Unmaps(all[i..]) == old(log) + Unmaps(all)
      {
        Regroup(log, [Unmapped(slots[i].ptr)], Unmaps(all[i + 1..]));
        assert all[i..][1..] == all[i + 1..];
        log := log + [Unmapped(slots[i].ptr)];
      }
      n, next := 0, 0;
    }
  }
}

/** The one-slot frame hand-over between the decoder threads and the UI, as steps taken under the
    two locks involved: the slot map and the session handlers. */
module SoftRender {
  import opened Bytes

  type Display = nat
  type SessionId = nat
  type Pixels = seq<byte>

  /** A pixel buffer: which allocation it is, and what it holds. */
  datatype Buffer = Buffer(id: nat, bytes: Pixels)

  datatype Slot = Slot(data: Buffer, valid: bool)

  /** A UI session: the displays it shows and whether its event stream is attached. */
  datatype Handler = Handler(displays: seq<Display>, hasStream: bool)

  /** Where the decoder thread of a display is inside `on_rgba_soft_render`. */
  datatype Pc =
    | Outside
    | Stored
    | Counted(multi: bool)
    | Notifying(multi: bool, todo: seq<SessionId>, sent: bool)
    | Withdrawing

  /** A decoder thread and the pixel buffer it owns. */
  datatype Decoder = Decoder(pc: Pc, raw: Buffer)

  datatype Event = Stored(display: Display) | Notified(display: Display, session: SessionId)

  /** Events so far, the latest on the outside. */
  datatype Log = Start | Then(before: Log, event: Event)

  /** Buffers numbered from `nextId` on have not been allocated yet. */
  datatype State = State(
    slots: map<Display, Slot>, handlers: map<SessionId, Handler>, decoders: map<Display, Decoder>,
    nextId: nat, log: Log)

  datatype Action =
    | Decode(display: Display, pixels: Pixels)
    | Store(display: Display)
    | CountSessions(display: Display)
    | BeginNotify(display: Display, order: seq<SessionId>)
    | NotifyOne(display: Display)
    | EndNotify(display: Display)
    | Withdraw(display: Display)
    | NextRgba(display: Display)
    | ClearSlots
    | ChangeHandlers(handlers: map<SessionId, Handler>)

  // ----- the slot operations, each under the slot lock

  /** Hands the decoder's buffer over unless the previous frame is still waiting; the decoder gets
      the slot's old buffer back, or a new empty one (`nextId`) if there was no slot. */
  function StoreFrame(slots: map<Display, Slot>, d: Display, raw: Buffer, nextId: nat)
      : (r: (map<Display, Slot>, Buffer, bool))
  {
    if d in slots then
      if slots[d].valid then (slots, raw, false) else (slots[d := Slot(raw, true)], slots[d].data, true)
    else (slots[d := Slot(raw, true)], Buffer(nextId, []), true)
  }

  function Invalidate(slots: map<Display, Slot>, d: Display): map<Display, Slot> {
    if d in slots then slots[d := Slot(slots[d].data, false)] else slots
  }

  /** Whether the notification loop tells this session. */
  predicate Eligible(h: Handler, d: Display, multi: bool) {
    |h.displays| <= 1 && (multi ==> d in h.displays) && h.hasStream
  }

  /** The sessions a frame is announced to, given the number of sessions: those with an event stream that
      show this display and no other, or, if there is only one session, at most one display. */
  predicate Listens(h: Handler, d: Display, sessions: nat) {
    h.hasStream && (h.displays == [d] || (sessions <= 1 && |h.displays| <= 1))
  }

  lemma EligibleExactly(h: Handler, d: Display, sessions: nat)
    ensures Eligible(h, d, sessions > 1) <==> Listens(h, d, sessions)
  {
    if |h.displays| == 1 { assert h.displays == [h.displays[0]]; }
  }

  // ----- steps

  ghost predicate Enumerates(order: seq<SessionId>, handlers: map<SessionId, Handler>) {
    |order| == |handlers| && forall id :: id in handlers <==> id in order
  }

  /** A decoder in its notification loop holds the handlers' read lock. */
  ghost predicate HandlersLocked(s: State) {
    exists d :: d in s.decoders && s.decoders[d].pc.Notifying?
  }

  function Move(s: State, d: Display, pc: Pc): State
    requires d in s.decoders
  {
    s.(decoders := s.decoders[d := Decoder(pc, s.decoders[d].raw)])
  }

  ghost predicate Enabled(s: State, a: Action) {
    match a
    case NextRgba(_) => true
    case ClearSlots => true
    case ChangeHandlers(_) => !HandlersLocked(s)
    case Decode(d, _) => d in s.decoders && s.decoders[d].pc.Outside?
    case Store(d) => d in s.decoders && s.decoders[d].pc.Outside?
    case CountSessions(d) => d in s.decoders && s.decoders[d].pc.Stored?
    case BeginNotify(d, order) => d in s.decoders && s.decoders[d].pc.Counted? && Enumerates(order, s.handlers)
    case NotifyOne(d) =>
      && d in s.decoders && s.decoders[d].pc.Notifying?
      && s.decoders[d].pc.todo != [] && s.decoders[d].pc.todo[0] in s.handlers
    case EndNotify(d) => d in s.decoders && s.decoders[d].pc.Notifying? && s.decoders[d].pc.todo == []
    case Withdraw(d) => d in s.decoders && s.decoders[d].pc.Withdrawing?
  }

  function Next(s: State, a: Action): State
    requires Enabled(s, a)
  {
    match a
    case Decode(d, pixels) => s.(decoders := s.decoders[d := Decoder(Outside, Buffer(s.decoders[d].raw.id, pixels))])
    case Store(d) =>
      var (slots, raw, stored) := StoreFrame(s.slots, d, s.decoders[d].raw, s.nextId);
      if stored then
        State(slots, s.handlers, s.decoders[d := Decoder(Pc.Stored, raw)],
              if d in s.slots then s.nextId else s.nextId + 1,
              Then(s.log, Event.Stored(d)))
      else s
    case CountSessions(d) => Move(s, d, Counted(|s.handlers| > 1))
    case BeginNotify(d, order) => Move(s, d, Notifying(s.decoders[d].pc.multi, order, false))
    case NotifyOne(d) =>
      var pc := s.decoders[d].pc;
      var id := pc.todo[0];
      if Eligible(s.handlers[id], d, pc.multi) then
        Move(s, d, Notifying(pc.multi, pc.todo[1..], true)).(log := Then(s.log, Notified(d, id)))
      else Move(s, d, Notifying(pc.multi, pc.todo[1..], pc.sent))
    case EndNotify(d) => Move(s, d, if s.decoders[d].pc.sent then Outside else Withdrawing)
    case Withdraw(d) => Move(s, d, Outside).(slots := Invalidate(s.slots, d))
    case NextRgba(d) => s.(slots := Invalidate(s.slots, d))
    case ClearSlots => s.(slots := map[])
    case ChangeHandlers(handlers) => s.(handlers := handlers)
  }

  ghost predicate IsRun(s: State, actions: seq<Action>)
    decreases |actions|
  {
    actions == [] || (Enabled(s, actions[0]) && IsRun(Next(s, actions[0]), actions[1..]))
  }

  ghost function Run(s: State, actions: seq<Action>): State
    requires IsRun(s, actions)
    decreases |actions|
  {
    if actions == [] then s else Run(Next(s, actions[0]), actions[1..])
  }

  predicate Valid(s: State, d: Display) { d in s.slots && s.slots[d].valid }

  // ----- a waiting frame is never overwritten

  /** The slot stays valid throughout a run. */
  ghost predicate AlwaysValid(s: State, actions: seq<Action>, d: Display)
    requires IsRun(s, actions)
    decreases |actions|
  {
    Valid(s, d) && (actions == [] || AlwaysValid(Next(s, actions[0]), actions[1..], d))
  }

  lemma ValidSlotKeepsPixels(s: State, a: Action, d: Display)
    requires Enabled(s, a) && Valid(s, d) && Valid(Next(s, a), d)
    ensures Next(s, a).slots[d] == s.slots[d]
  {
  }

  /** As long as a slot is valid, under any interleaving of decoders and UI, its pixels stay. */
  lemma {:induction false} WaitingFrameIsStable(s: State, actions: seq<Action>, d: Display)
    requires IsRun(s, actions) && AlwaysValid(s, actions, d)
    ensures d in Run(s, actions).slots && Run(s, actions).slots[d] == s.slots[d]
    decreases |actions|
  {
    if actions != [] {
      ValidSlotKeepsPixels(s, actions[0], d);
      WaitingFrameIsStable(Next(s, actions[0]), actions[1..], d);
    }
  }

  // ----- buffers are swapped, never lost or shared

  /** How often a frame of `d` was handed over. */
  function StoredCount(log: Log, d: Display): nat {
    if log.Start? then 0 else StoredCount(log.before, d) + if log.event == Event.Stored(d) then 1 else 0
  }

  /** The buffers of display `d` in the slot and with the decoder, compared before and after. */
  ghost predicate SameBuffers(s: State, t: State, d: Display, swapped: bool)
    requires d in s.slots && d in s.decoders
  {
    && d in t.slots && d in t.decoders
    && (if swapped then t.slots[d].data.id == s.decoders[d].raw.id && t.decoders[d].raw.id == s.slots[d].data.id
        else t.slots[d].data.id == s.slots[d].data.id && t.decoders[d].raw.id == s.decoders[d].raw.id)
  }

  lemma StepSwaps(s: State, a: Action, d: Display)
    requires Enabled(s, a) && !a.ClearSlots? && d in s.slots && d in s.decoders
    ensures StoredCount(s.log, d) <= StoredCount(Next(s, a).log, d) <= StoredCount(s.log, d) + 1
    ensures SameBuffers(s, Next(s, a), d, StoredCount(Next(s, a).log, d) != StoredCount(s.log, d))
  {
  }

  /** Under any interleaving, decoding included, a display that has a slot keeps the same two buffers
      until all slots are discarded: one in the slot, one with its decoder, and they have changed
      places exactly if an odd number of frames was handed over. */
  lemma {:induction false} BuffersConserved(s: State, actions: seq<Action>, d: Display)
    requires IsRun(s, actions) && ClearSlots !in actions && d in s.slots && d in s.decoders
    ensures var t := Run(s, actions);
            && StoredCount(s.log, d) <= StoredCount(t.log, d)
            && SameBuffers(s, t, d, (StoredCount(t.log, d) - StoredCount(s.log, d)) % 2 == 1)
    decreases |actions|
  {
    if actions != [] {
      assert actions[0] in actions;
      StepSwaps(s, actions[0], d);
      BuffersConserved(Next(s, actions[0]), actions[1..], d);
    }
  }

  /** Where a buffer can be. */
  datatype Place = InSlot(display: Display) | AtDecoder(display: Display)

  predicate Used(s: State, p: Place) { if p.InSlot? then p.display in s.slots else p.display in s.decoders }

  function BufferAt(s: State, p: Place): Buffer
    requires Used(s, p)
  {
    if p.InSlot? then s.slots[p.display].data else s.decoders[p.display].raw
  }

  /** Every place has a buffer of its own. */
  ghost predicate Separate(s: State) {
    && (forall p :: Used(s, p) ==> BufferAt(s, p).id < s.nextId)
    && (forall p, q :: Used(s, p) && Used(s, q) && p != q ==> BufferAt(s, p).id != BufferAt(s, q).id)
  }

  /** Where the buffer that is at `p` after a step was before it. */
  function Origin(s: State, a: Action, p: Place): Place
    requires Enabled(s, a)
  {
    if a.Store? && a.display == p.display && !(p.display in s.slots && s.slots[p.display].valid) then
      if p.InSlot? then AtDecoder(p.display) else InSlot(p.display)
    else p
  }

  lemma OriginFacts(s: State, a: Action, p: Place)
    requires Enabled(s, a) && Used(Next(s, a), p)
    ensures if Used(s, Origin(s, a, p)) then BufferAt(Next(s, a), p).id == BufferAt(s, Origin(s, a, p)).id
            else
              && a.Store? && a.display !in s.slots && p == AtDecoder(a.display)
              && BufferAt(Next(s, a), p).id == s.nextId
    ensures s.nextId <= Next(s, a).nextId && (!Used(s, Origin(s, a, p)) ==> s.nextId < Next(s, a).nextId)
  {
  }

  lemma SeparateStep(s: State, a: Action)
    requires Separate(s) && Enabled(s, a)
    ensures Separate(Next(s, a))
  {
    var t := Next(s, a);
    forall p | Used(t, p) ensures BufferAt(t, p).id < t.nextId { OriginFacts(s, a, p); }
    forall p, q | Used(t, p) && Used(t, q) && p != q ensures BufferAt(t, p).id != BufferAt(t, q).id {
      OriginFacts(s, a, p);
      OriginFacts(s, a, q);
      assert Origin(s, a, p) != Origin(s, a, q);
    }
  }

  /** No buffer is ever in two places: what a decoder writes into is never what the UI reads, for any
      displays and any interleaving, discarding slots included. */
  lemma {:induction false} BuffersNeverShared(s: State, actions: seq<Action>)
    requires Separate(s) && IsRun(s, actions)
    ensures Separate(Run(s, actions))
    decreases |actions|
  {
    if actions != [] {
      SeparateStep(s, actions[0]);
      BuffersNeverShared(Next(s, actions[0]), actions[1..]);
    }
  }

  // ----- a valid slot has been announced

  /** Some session was notified after the latest frame of `d` was stored. */
  predicate Announced(log: Log, d: Display) {
    && log.Then? && log.event != Event.Stored(d)
    && ((log.event.Notified? && log.event.display == d) || Announced(log.before, d))
  }

  predicate OutsideCall(s: State, d: Display) { d !in s.decoders || s.decoders[d].pc.Outside? }

  ghost predicate InvFor(s: State, d: Display) {
    && (OutsideCall(s, d) && Valid(s, d) ==> Announced(s.log, d))
    && (d in s.decoders && s.decoders[d].pc.Notifying? && s.decoders[d].pc.sent ==> Announced(s.log, d))
    && (d in s.decoders && s.decoders[d].pc.Notifying? ==>
          forall id :: id in s.decoders[d].pc.todo ==> id in s.handlers)
  }

  ghost predicate Inv(s: State) { forall d :: InvFor(s, d) }

  lemma InvStep(s: State, a: Action, d: Display)
    requires Inv(s) && Enabled(s, a)
    ensures InvFor(Next(s, a), d)
  {
    assert InvFor(s, d);
    match a
    case Store(_) =>
    case NotifyOne(_) =>
    case _ =>
  }

  lemma {:induction false} RunInv(s: State, actions: seq<Action>)
    requires Inv(s) && IsRun(s, actions)
    ensures Inv(Run(s, actions))
    decreases |actions|
  {
    if actions != [] {
      forall d ensures InvFor(Next(s, actions[0]), d) { InvStep(s, actions[0], d); }
      RunInv(Next(s, actions[0]), actions[1..]);
    }
  }

  /** No slot yet, and every decoder outside the call. */
  predicate Initial(s: State) {
    s.slots == map[] && s.log == Start && forall d :: d in s.decoders ==> s.decoders[d].pc.Outside?
  }

  /** In every run, a frame that waits while its decoder is outside the call has been announced to
      some session since it was stored: no frame waits without anyone knowing. */
  lemma WaitingFrameIsAnnounced(s: State, actions: seq<Action>, d: Display)
    requires Initial(s) && IsRun(s, actions)
    ensures var t := Run(s, actions); OutsideCall(t, d) && Valid(t, d) ==> Announced(t.log, d)
  {
    RunInv(s, actions);
    assert InvFor(Run(s, actions), d);
  }

  /** Every notification loop can go on to its end: the sessions still to visit cannot vanish, because
      the handlers are locked. */
  lemma NotificationNeverStuck(s: State, actions: seq<Action>, d: Display)
    requires Initial(s) && IsRun(s, actions) && d in Run(s, actions).decoders
    requires Run(s, actions).decoders[d].pc.Notifying?
    ensures Enabled(Run(s, actions), NotifyOne(d)) || Enabled(Run(s, actions), EndNotify(d))
  {
    RunInv(s, actions);
    assert InvFor(Run(s, actions), d);
  }

  // ----- a call without interference

  lemma {:induction false} RunConcat(s: State, first: seq<Action>, second: seq<Action>)
    requires IsRun(s, first) && IsRun(Run(s, first), second)
    ensures IsRun(s, first + second) && Run(s, first + second) == Run(Run(s, first), second)
    decreases |first|
  {
    if first == [] {
      assert first + second == second;
    } else {
      assert (first + second)[1..] == first[1..] + second;
      RunConcat(Next(s, first[0]), first[1..], second);
    }
  }

  /** One step after a run. */
  lemma RunThen(s: State, actions: seq<Action>, a: Action)
    requires IsRun(s, actions) && Enabled(Run(s, actions), a)
    ensures IsRun(s, actions + [a]) && Run(s, actions + [a]) == Next(Run(s, actions), a)
  {
    assert IsRun(Run(s, actions), [a]) by { assert [a][1..] == []; }
    RunConcat(s, actions, [a]);
    assert [a][1..] == [];
  }

  ghost predicate SomeEligible(s: State, d: Display, multi: bool, ids: seq<SessionId>) {
    exists id :: id in ids && id in s.handlers && Eligible(s.handlers[id], d, multi)
  }

  /** The notification loop visits every session and notes whether it told any. */
  lemma {:induction false} LoopVisitsAll(s: State, d: Display) returns (actions: seq<Action>)
    requires d in s.decoders && s.decoders[d].pc.Notifying?
    requires forall id :: id in s.decoders[d].pc.todo ==> id in s.handlers
    ensures IsRun(s, actions)
    ensures var t, pc := Run(s, actions), s.decoders[d].pc;
            && t.slots == s.slots && t.handlers == s.handlers
            && d in t.decoders && t.decoders[d].raw == s.decoders[d].raw
            && t.decoders[d].pc == Notifying(pc.multi, [], pc.sent || SomeEligible(s, d, pc.multi, pc.todo))
    decreases |s.decoders[d].pc.todo|
  {
    var pc := s.decoders[d].pc;
    actions := [];
    if pc.todo != [] {
      assert pc.todo[0] in pc.todo;
      var n := Next(s, NotifyOne(d));
      var rest := LoopVisitsAll(n, d);
      actions := [NotifyOne(d)] + rest;
      assert actions[1..] == rest;
      assert pc.todo == [pc.todo[0]] + pc.todo[1..];
      assert SomeEligible(s, d, pc.multi, pc.todo) <==>
             Eligible(s.handlers[pc.todo[0]], d, pc.multi) || SomeEligible(n, d, pc.multi, pc.todo[1..]);
    }
  }

  /** The frame stored, the sessions counted, and the loop about to start. */
  lemma CallBegins(s: State, d: Display, order: seq<SessionId>) returns (begin: seq<Action>, t: State)
    requires d in s.decoders && s.decoders[d].pc.Outside? && !Valid(s, d) && Enumerates(order, s.handlers)
    ensures IsRun(s, begin) && t == Run(s, begin)
    ensures t.slots == s.slots[d := Slot(s.decoders[d].raw, true)] && t.handlers == s.handlers && d in t.decoders
    ensures t.decoders[d].raw == if d in s.slots then s.slots[d].data else Buffer(s.nextId, [])
    ensures t.decoders[d].pc == Notifying(|s.handlers| > 1, order, false)
  {
    var s1 := Next(s, Store(d));
    var s2 := Next(s1, CountSessions(d));
    t := Next(s2, BeginNotify(d, order));
    RunThen(s, [], Store(d));
    RunThen(s, [] + [Store(d)], CountSessions(d));
    RunThen(s, [] + [Store(d)] + [CountSessions(d)], BeginNotify(d, order));
    begin := [] + [Store(d)] + [CountSessions(d)] + [BeginNotify(d, order)];
  }

  /** A call that nobody interferes with, whatever the order of the sessions: if a frame still waits,
      nothing changes; otherwise the new frame is in the slot, the decoder has the slot's old buffer (or a
      new one), and the frame waits if and only if some session listens. */
  lemma UndisturbedCall(s: State, d: Display, order: seq<SessionId>) returns (actions: seq<Action>)
    requires d in s.decoders && s.decoders[d].pc.Outside? && Enumerates(order, s.handlers)
    ensures IsRun(s, actions) && OutsideCall(Run(s, actions), d) && d in Run(s, actions).decoders
    ensures var t := Run(s, actions);
            && (Valid(s, d) ==> t == s)
            && (!Valid(s, d) ==>
                  && t.decoders[d].raw == (if d in s.slots then s.slots[d].data else Buffer(s.nextId, []))
                  && t.slots == s.slots[d := Slot(s.decoders[d].raw,
                       exists id :: id in s.handlers && Listens(s.handlers[id], d, |s.handlers|))])
  {
    if Valid(s, d) {
      actions := [Store(d)];
      assert actions[1..] == [];
    } else {
      var begin, t := CallBegins(s, d, order);
      var loop := LoopVisitsAll(t, d);
      RunConcat(s, begin, loop);
      RunThen(s, begin + loop, EndNotify(d));
      actions := begin + loop + [EndNotify(d)];
      SameAudience(s, d, order);
      if !SomeEligible(t, d, |s.handlers| > 1, order) {
        RunThen(s, actions, Withdraw(d));
        actions := actions + [Withdraw(d)];
      }
    }
  }

  lemma SameAudience(s: State, d: Display, order: seq<SessionId>)
    requires Enumerates(order, s.handlers)
    ensures SomeEligible(s, d, |s.handlers| > 1, order) <==>
            exists id :: id in s.handlers && Listens(s.handlers[id], d, |s.handlers|)
  {
    forall id | id in s.handlers
      ensures Eligible(s.handlers[id], d, |s.handlers| > 1) <==> Listens(s.handlers[id], d, |s.handlers|)
    {
      EligibleExactly(s.handlers[id], d, |s.handlers|);
    }
  }

  // ----- the operations in place

  class FlutterHandler {
    var slots: map<Display, Slot>
    var handlers: map<SessionId, Handler>

    /** The first critical section of `on_rgba_soft_render`; `nextId` names the buffer it would allocate. */
    method StoreRgba(d: Display, raw: Buffer, nextId: nat) returns (back: Buffer, stored: bool)
      modifies this`slots
      ensures (slots, back, stored) == StoreFrame(old(slots), d, raw, nextId)
    {
      if d in slots {
        if slots[d].valid { return raw, false; }
        back := slots[d].data;
        slots := slots[d := Slot(raw, true)];
      } else {
        slots := slots[d := Slot(raw, true)];
        back := Buffer(nextId, []);
      }
      stored := true;
    }

    /** The notification loop, for any order of the sessions: whether anyone was told. */
    method NotifySessions(d: Display, multi: bool, order: seq<SessionId>) returns (isSent: bool, told: seq<SessionId>)
      requires forall id :: id in order ==> id in handlers
      ensures isSent <==> exists id :: id in order && Eligible(handlers[id], d, multi)
      ensures forall id :: id in told <==> id in order && Eligible(handlers[id], d, multi)
    {
      isSent, told := false, [];
      for i := 0 to |order|
        invariant forall id :: id in told <==> id in order[..i] && Eligible(handlers[id], d, multi)
        invariant isSent <==> told != []
      {
        var h := handlers[order[i]];
        if |h.displays| > 1 || (multi && d !in h.displays) { continue; }
        if h.hasStream {
          told := told + [order[i]];
          isSent := true;
        }
      }
      assert order[..|order|] == order;
      if isSent { assert told[0] in told; }
    }

    /** `on_rgba_soft_render` when no other thread interferes: the frame waits in the slot exactly if
        it was stored and someone was told, or if an earlier frame was still waiting. */
    method OnRgbaSoftRender(d: Display, raw: Buffer, nextId: nat, order: seq<SessionId>) returns (back: Buffer)
      requires Enumerates(order, handlers)
      modifies this`slots
      ensures var waiting := d in old(slots) && old(slots)[d].valid;
              var told := exists id :: id in handlers && Eligible(handlers[id], d, |handlers| > 1);
              && (waiting ==> slots == old(slots) && back == raw)
              && (!waiting ==> slots == old(slots)[d := Slot(raw, told)])
              && (!waiting ==> back == if d in old(slots) then old(slots)[d].data else Buffer(nextId, []))
    {
      var stored;
      back, stored := StoreRgba(d, raw, nextId);
      if !stored { return; }
      var isMulti := |handlers| > 1;
      var isSent, told := NotifySessions(d, isMulti, order);
      if !isSent { NextRgba(d); }
    }

    method NextRgba(d: Display)
      modifies this`slots
      ensures slots == Invalidate(old(slots), d)
    {
      if d in slots { slots := slots[d := Slot(slots[d].data, false)]; }
    }
  }
}

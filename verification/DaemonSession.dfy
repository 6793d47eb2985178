/** One client session of the daemon: the session thread and the drain thread it spawns, as an
    interleaving of their steps. Results of vendor and system calls are inputs of a step. */
module DaemonSession {
  import opened Options

  /** What the session thread is about to do. */
  datatype MainPc =
    | GetDefault | Create | Open | GetAttr | SetAttr | GetHandles | StartChannel | Spawn | Alloc | Serve | Feed
    | Stopping(served: bool) | Join(served: bool) | ClearMaps | StopChannel | CloseChannel | Destroy | Returned(rc: int)

  /** How a received frame fares: refused by the size and flag gate, of an impossible size, rejected
      by the frame routine, or converted. */
  datatype Frame = Unsupported | BadSize | Unconvertible | Convertible

  /** What the drain thread is about to do. */
  datatype DrainPc =
    | NotStarted | AllocScratch | Top | Polling | Holding(frame: Frame) | Refusing | Leaving
    | Writing(part: nat) | Failing | Releasing | Gone | Joined

  datatype Event =
    | CreatedPlayer | OpenedChannel | StartedChannel | StoppedChannel | ClosedChannel | DestroyedPlayer
    | SpawnedDrain | AllocatedInput | FeedFailed | JoinedDrain | ClearedMaps
    | Received | UsedMaps | Wrote(part: nat) | WriteFailed | Refused | Released

  /** The calls made so far, the latest on the outside. */
  datatype Trace = Start | Then(before: Trace, event: Event)

  /** `stop` is the drain thread's flag, `running` the daemon's; `served` records a completed session. */
  datatype Control = Control(running: bool, stop: bool, served: bool)

  datatype Flags = Flags(created: bool, channelOpen: bool, started: bool)

  /** `terminal` counts frames that ended the session: refused, or not fully written. */
  datatype Counters = Counters(frames: nat, fails: nat, terminal: nat)

  datatype State = State(main: MainPc, drain: DrainPc, ctl: Control, flags: Flags, count: Counters, trace: Trace)

  const INITIAL :=
    State(GetDefault, NotStarted, Control(true, false, false), Flags(false, false, false), Counters(0, 0, 0), Start)

  /** A step of one thread, with the outcome of the call it makes, or a termination signal. */
  datatype Action = MainStep(ok: bool) | DrainStep(ok: bool, frame: Frame) | Signal

  function Stop(c: Control): Control { Control(c.running, true, c.served) }

  /** The state after a call worth recording. */
  function Log(s: State, e: Event): State { s.(trace := Then(s.trace, e)) }

  function LogIf(s: State, made: bool, e: Event): State { if made then Log(s, e) else s }

  function NextMain(s: State, ok: bool): State {
    match s.main
    case GetDefault => s.(main := if ok then Create else ClearMaps)
    case Create =>
      if ok then Log(s, CreatedPlayer).(main := Open, flags := s.flags.(created := true)) else s.(main := ClearMaps)
    case Open =>
      if ok then Log(s, OpenedChannel).(main := GetAttr, flags := s.flags.(channelOpen := true))
      else s.(main := ClearMaps)
    case GetAttr => s.(main := if ok then SetAttr else ClearMaps)
    case SetAttr => s.(main := if ok then GetHandles else ClearMaps)
    case GetHandles => s.(main := if ok then StartChannel else ClearMaps)
    case StartChannel =>
      if ok then Log(s, StartedChannel).(main := Spawn, flags := s.flags.(started := true)) else s.(main := ClearMaps)
    case Spawn => if ok then Log(s, SpawnedDrain).(main := Alloc, drain := AllocScratch) else s.(main := ClearMaps)
    case Alloc => if ok then Log(s, AllocatedInput).(main := Serve) else s.(main := Stopping(false))
    case Serve => s.(main := if s.ctl.running && !s.ctl.stop then Feed else Stopping(true))
    case Feed => if ok then s.(main := Serve) else Log(s, FeedFailed).(main := Stopping(true))
    case Stopping(served) => s.(main := Join(served), ctl := Stop(s.ctl))
    case Join(served) =>
      if s.drain.Gone? then Log(s, JoinedDrain).(main := ClearMaps, drain := Joined, ctl := s.ctl.(served := served))
      else s
    case ClearMaps => Log(s, ClearedMaps).(main := StopChannel)
    case StopChannel => LogIf(s, s.flags.started, StoppedChannel).(main := CloseChannel)
    case CloseChannel => LogIf(s, s.flags.channelOpen, ClosedChannel).(main := Destroy)
    case Destroy => LogIf(s, s.flags.created, DestroyedPlayer).(main := Returned(if s.ctl.served then 0 else -1))
    case Returned(_) => s
  }

  function CountFail(s: State): State { s.(count := s.count.(fails := s.count.fails + 1)) }

  function CountTerminal(s: State): State { s.(count := s.count.(terminal := s.count.terminal + 1)) }

  function CountFrame(s: State): State { s.(count := s.count.(frames := s.count.frames + 1)) }

  function NextDrain(s: State, ok: bool, frame: Frame): State {
    match s.drain
    case AllocScratch => s.(drain := if ok then Top else Leaving)
    case Top => s.(drain := if s.ctl.stop || !s.ctl.running then Gone else Polling)
    case Polling => if ok then Log(s, Received).(drain := Holding(frame)) else s.(drain := Top)
    case Holding(f) => (
      match f
      case Unsupported => CountTerminal(Log(s, Refused)).(drain := Refusing)
      case BadSize => CountFail(s).(drain := Releasing)
      case Unconvertible => CountFail(Log(s, UsedMaps)).(drain := Releasing)
      case Convertible => Log(s, UsedMaps).(drain := Writing(0))
    )
    case Refusing => Log(s, Released).(drain := Leaving)
    case Leaving => s.(drain := Gone, ctl := Stop(s.ctl))
    case Writing(part) =>
      if !ok then CountTerminal(Log(s, WriteFailed)).(drain := Failing)
      else if part < 2 then Log(s, Wrote(part)).(drain := Writing(part + 1))
      else CountFrame(Log(s, Wrote(part))).(drain := Releasing)
    case Failing => s.(drain := Releasing, ctl := Stop(s.ctl))
    case Releasing => Log(s, Released).(drain := Top)
    case _ => s
  }

  function Next(s: State, a: Action): State {
    match a
    case MainStep(ok) => NextMain(s, ok)
    case DrainStep(ok, frame) => NextDrain(s, ok, frame)
    case Signal => s.(ctl := s.ctl.(running := false))
  }

  function Run(s: State, actions: seq<Action>): State
    decreases |actions|
  {
    if actions == [] then s else Run(Next(s, actions[0]), actions[1..])
  }

  // ----- what a trace says, independent of the threads

  predicate Has(t: Trace, e: Event) { t.Then? && (t.event == e || Has(t.before, e)) }

  function Count(t: Trace, e: Event): nat {
    if t.Start? then 0 else Count(t.before, e) + if t.event == e then 1 else 0
  }

  /** A frame has been received and not yet released. */
  predicate Outstanding(t: Trace) {
    t.Then? && (t.event == Received || (t.event != Released && Outstanding(t.before)))
  }

  /** Every received frame is released before the next is received, and nothing else is released. */
  predicate ReleasedOnce(t: Trace) {
    t.Then? ==>
      && ReleasedOnce(t.before)
      && (t.event == Received ==> !Outstanding(t.before))
      && (t.event == Released ==> Outstanding(t.before))
  }

  lemma {:induction false} ReleasedOnceCounts(t: Trace)
    requires ReleasedOnce(t)
    ensures Count(t, Received) == Count(t, Released) + if Outstanding(t) then 1 else 0
  {
    if t.Then? { ReleasedOnceCounts(t.before); }
  }

  predicate IsTerminal(e: Event) { e == Refused || e == WriteFailed }

  predicate Over(t: Trace) { t.Then? && (IsTerminal(t.event) || Over(t.before)) }

  /** After a refused frame or a failed write, nothing is received, converted or written, and the
      trouble is not reported twice. */
  predicate SilentAfterTerminal(t: Trace) {
    t.Then? ==>
      && SilentAfterTerminal(t.before)
      && (Over(t.before) ==> !t.event.Received? && !t.event.UsedMaps? && !t.event.Wrote? && !IsTerminal(t.event))
  }

  predicate ByDrain(e: Event) {
    e.Received? || e.UsedMaps? || e.Wrote? || e.WriteFailed? || e.Refused? || e.Released?
  }

  predicate IsCleanup(e: Event) {
    e.ClearedMaps? || e.StoppedChannel? || e.ClosedChannel? || e.DestroyedPlayer?
  }

  /** The drain thread acts only between its creation and its join, and cleanup starts only when
      there is no drain thread that has not been joined. */
  predicate JoinedBeforeCleanup(t: Trace) {
    t.Then? ==>
      && JoinedBeforeCleanup(t.before)
      && (ByDrain(t.event) ==> Has(t.before, SpawnedDrain) && !Has(t.before, JoinedDrain))
      && (IsCleanup(t.event) ==> Has(t.before, SpawnedDrain) ==> Has(t.before, JoinedDrain))
  }

  /** The mapping cache is never used once it has been cleared. */
  predicate MapsUnusedAfterClear(t: Trace) {
    t.Then? ==> MapsUnusedAfterClear(t.before) && (t.event == UsedMaps ==> !Has(t.before, ClearedMaps))
  }

  /** The latest call of the drain thread. */
  function LastDrain(t: Trace): Option<Event> {
    if t.Start? then None else if ByDrain(t.event) then Some(t.event) else LastDrain(t.before)
  }

  /** What the drain thread may do next: receive a frame; refuse it, drop it or convert it; write header,
      luma and chroma in this order, each at most once, and stop at a failure; and release the frame. */
  predicate Follows(last: Option<Event>, e: Event) {
    match e
    case Received => last.None? || last == Some(Released)
    case Refused => last == Some(Received)
    case UsedMaps => last == Some(Received)
    case Wrote(part) => last == Some(if part == 0 then UsedMaps else Wrote(part - 1))
    case WriteFailed => last == Some(UsedMaps) || last == Some(Wrote(0)) || last == Some(Wrote(1))
    case Released => last.Some? && last.value != Released && last.value != Wrote(0) && last.value != Wrote(1)
    case _ => true
  }

  predicate InOrder(t: Trace) {
    t.Then? ==> InOrder(t.before) && Follows(LastDrain(t.before), t.event)
  }

  predicate IsResource(e: Event) {
    || e.CreatedPlayer? || e.OpenedChannel? || e.StartedChannel?
    || e.StoppedChannel? || e.ClosedChannel? || e.DestroyedPlayer?
  }

  /** The acquire and undo calls, in order. */
  function Resources(t: Trace): seq<Event> {
    if t.Start? then [] else Resources(t.before) + if IsResource(t.event) then [t.event] else []
  }

  const ACQUIRE := [CreatedPlayer, OpenedChannel, StartedChannel]

  function Undo(e: Event): Event {
    match e
    case CreatedPlayer => DestroyedPlayer
    case OpenedChannel => ClosedChannel
    case _ => StoppedChannel
  }

  /** The undo calls owed for a sequence of acquisitions: one each, last acquired first. */
  function Undone(acquired: seq<Event>): seq<Event> {
    if acquired == [] then [] else Undone(acquired[1..]) + [Undo(acquired[0])]
  }

  // ----- the invariant

  /** How far set-up got: 0 to 3 acquisitions. */
  function Acquired(s: State): nat {
    if s.flags.started then 3 else if s.flags.channelOpen then 2 else if s.flags.created then 1 else 0
  }

  ghost predicate SetupShape(s: State) {
    && (s.flags.started ==> s.flags.channelOpen) && (s.flags.channelOpen ==> s.flags.created)
    && match s.main
       case GetDefault => Acquired(s) == 0
       case Create => Acquired(s) == 0
       case Open => Acquired(s) == 1
       case GetAttr => Acquired(s) == 2
       case SetAttr => Acquired(s) == 2
       case GetHandles => Acquired(s) == 2
       case StartChannel => Acquired(s) == 2
       case Spawn => Acquired(s) == 3
       case Alloc => Acquired(s) == 3
       case Serve => Acquired(s) == 3
       case Feed => Acquired(s) == 3
       case Stopping(_) => Acquired(s) == 3
       case Join(_) => Acquired(s) == 3
       case _ => true
  }

  /** Acquisitions still to be undone once cleanup runs. */
  function Owed(s: State): nat {
    match s.main
    case CloseChannel => if s.flags.channelOpen then 2 else Acquired(s)
    case Destroy => if s.flags.created then 1 else 0
    case Returned(_) => 0
    case _ => Acquired(s)
  }

  ghost predicate ResourceInv(s: State) {
    Owed(s) <= Acquired(s) && Resources(s.trace) == CallsSoFar(Acquired(s), Owed(s))
  }

  /** `n` acquisitions, and the undo calls of all but the `owed` earliest of them. */
  function CallsSoFar(n: nat, owed: nat): seq<Event>
    requires owed <= n <= 3
    decreases n - owed
  {
    if owed == n then ACQUIRE[..n] else CallsSoFar(n, owed + 1) + [Undo(ACQUIRE[owed])]
  }

  predicate CleaningUp(m: MainPc) {
    m.ClearMaps? || m.StopChannel? || m.CloseChannel? || m.Destroy? || m.Returned?
  }

  /** The session thread is in the stretch that begins with the drain thread and ends with its join. */
  predicate WithDrain(m: MainPc) { m.Alloc? || m.Serve? || m.Feed? || m.Stopping? || m.Join? }

  ghost predicate ThreadInv(s: State) {
    && (Has(s.trace, SpawnedDrain) <==> !s.drain.NotStarted?)
    && (Has(s.trace, JoinedDrain) <==> s.drain.Joined?)
    && (WithDrain(s.main) ==> !s.drain.NotStarted? && !s.drain.Joined?)
    && (CleaningUp(s.main) ==> s.drain.NotStarted? || s.drain.Joined?)
    && (!WithDrain(s.main) && !CleaningUp(s.main) ==> s.drain.NotStarted?)
    && JoinedBeforeCleanup(s.trace)
  }

  ghost predicate MapsInv(s: State) {
    && MapsUnusedAfterClear(s.trace)
    && (Has(s.trace, ClearedMaps) <==> CleaningUp(s.main) && !s.main.ClearMaps?)
  }

  predicate InHand(d: DrainPc) { d.Holding? || d.Refusing? || d.Writing? || d.Failing? || d.Releasing? }

  /** A frame in hand that no counter has recorded yet. */
  predicate Uncounted(d: DrainPc) { d.Holding? || d.Writing? }

  ghost predicate ReleaseInv(s: State) {
    ReleasedOnce(s.trace) && (Outstanding(s.trace) <==> InHand(s.drain))
  }

  ghost predicate CountInv(s: State) {
    && Count(s.trace, Received) ==
         s.count.frames + s.count.fails + s.count.terminal + (if Uncounted(s.drain) then 1 else 0)
    && Count(s.trace, Wrote(2)) == s.count.frames
    && (s.drain.Writing? ==> s.drain.part <= 2)
  }

  ghost predicate QuietInv(s: State) {
    && SilentAfterTerminal(s.trace)
    && s.count.terminal == (if Over(s.trace) then 1 else 0)
    && (Over(s.trace) ==>
          || s.drain.Refusing? || s.drain.Leaving? || s.drain.Failing? || s.drain.Gone? || s.drain.Joined?
          || (s.ctl.stop && (s.drain.Releasing? || s.drain.Top?)))
  }

  /** The place of the drain thread agrees with its latest call. */
  ghost predicate OrderInv(s: State) {
    && InOrder(s.trace)
    && var last := LastDrain(s.trace);
       match s.drain
       case Holding(_) => last == Some(Received)
       case Refusing => last == Some(Refused)
       case Writing(part) => part <= 2 && last == Some(if part == 0 then UsedMaps else Wrote(part - 1))
       case Failing => last == Some(WriteFailed)
       case Releasing =>
         last == Some(Received) || last == Some(UsedMaps) || last == Some(Wrote(2)) || last == Some(WriteFailed)
       case _ => last.None? || last == Some(Released)
  }

  /** Someone has asked for the end of the session. */
  predicate Ending(s: State) { s.ctl.stop || !s.ctl.running }

  /** The drain thread leaves, and the session thread waits for it, only at the end of the session; and
      the session thread leaves its loop only then or when it cannot feed the decoder. */
  ghost predicate EndInv(s: State) {
    && (s.drain.Gone? || s.drain.Joined? ==> Ending(s))
    && (s.main.Join? ==> s.ctl.stop)
    && (s.main == Stopping(true) ==> Ending(s) || Has(s.trace, FeedFailed))
  }

  /** The session thread is in its loop, or came out of it. */
  predicate PastAlloc(m: MainPc) {
    m.Serve? || m.Feed? || m == Stopping(true) || m == Join(true)
  }

  /** `served` is set by the join exactly if the input buffer was allocated. */
  ghost predicate ServedInv(s: State) {
    && (Has(s.trace, AllocatedInput) <==> PastAlloc(s.main) || (CleaningUp(s.main) && s.ctl.served))
    && (!CleaningUp(s.main) ==> !s.ctl.served)
    && (s.main.Returned? ==> s.main.rc == if s.ctl.served then 0 else -1)
  }

  ghost predicate Inv(s: State) {
    && SetupShape(s) && ResourceInv(s) && ThreadInv(s) && MapsInv(s) && ReleaseInv(s) && CountInv(s) && QuietInv(s)
    && OrderInv(s) && EndInv(s) && ServedInv(s)
  }

  lemma AcquireStep(n: nat)
    requires n < 3
    ensures CallsSoFar(n, n) + [ACQUIRE[n]] == CallsSoFar(n + 1, n + 1)
  {
  }

  lemma {:induction false} ShapeStep(s: State, ok: bool)
    requires SetupShape(s)
    ensures SetupShape(NextMain(s, ok)) && Owed(NextMain(s, ok)) <= Acquired(NextMain(s, ok))
  {
  }

  lemma {:induction false} ResourceStep(s: State, ok: bool)
    requires SetupShape(s) && ResourceInv(s)
    ensures SetupShape(NextMain(s, ok)) && ResourceInv(NextMain(s, ok))
  {
    ShapeStep(s, ok);
    match s.main
    case Create => AcquireStep(0);
    case Open => AcquireStep(1);
    case StartChannel => AcquireStep(2);
    case _ =>
  }

  lemma {:induction false} ResourceKept(s: State, ok: bool, frame: Frame)
    requires SetupShape(s) && ResourceInv(s)
    ensures SetupShape(NextDrain(s, ok, frame)) && ResourceInv(NextDrain(s, ok, frame))
  {
    var t := NextDrain(s, ok, frame);
    assert t.main == s.main && t.flags == s.flags;
    assert Resources(t.trace) == Resources(s.trace) + [];
  }

  /** What the session thread leaves alone: the counters, the frame in hand, and the drain thread's calls. */
  lemma MainTouches(s: State, ok: bool)
    requires ThreadInv(s)
    ensures var t := NextMain(s, ok);
            && t.count == s.count && (s.ctl.stop ==> t.ctl.stop)
            && (t.trace == s.trace || (t.trace.Then? && t.trace.before == s.trace && !ByDrain(t.trace.event)))
            && (|| t.drain == s.drain
                || (s.drain.NotStarted? && t.drain.AllocScratch?) || (s.drain.Gone? && t.drain.Joined?))
  {
  }

  lemma {:induction false} JoinStepMain(s: State, ok: bool)
    requires ThreadInv(s)
    ensures JoinedBeforeCleanup(NextMain(s, ok).trace)
  {
  }

  lemma {:induction false} ThreadStepMain(s: State, ok: bool)
    requires ThreadInv(s)
    ensures ThreadInv(NextMain(s, ok))
  {
    JoinStepMain(s, ok);
    match s.main
    case Spawn =>
    case Join(_) =>
    case _ =>
  }

  lemma {:induction false} ThreadStepDrain(s: State, ok: bool, frame: Frame)
    requires ThreadInv(s)
    ensures ThreadInv(NextDrain(s, ok, frame))
  {
    match s.drain
    case Holding(_) =>
    case Writing(_) =>
    case _ =>
  }

  lemma {:induction false} MapsStepMain(s: State, ok: bool)
    requires MapsInv(s)
    ensures MapsInv(NextMain(s, ok))
  {
  }

  lemma {:induction false} MapsStepDrain(s: State, ok: bool, frame: Frame)
    requires ThreadInv(s) && MapsInv(s)
    ensures MapsInv(NextDrain(s, ok, frame))
  {
    assert s.drain.Holding? ==> !CleaningUp(s.main);
  }

  lemma {:induction false} ReleaseStepMain(s: State, ok: bool)
    requires ThreadInv(s) && ReleaseInv(s)
    ensures ReleaseInv(NextMain(s, ok))
  {
    MainTouches(s, ok);
  }

  lemma {:induction false} ReleaseStepDrain(s: State, ok: bool, frame: Frame)
    requires ReleaseInv(s)
    ensures ReleaseInv(NextDrain(s, ok, frame))
  {
    match s.drain
    case Holding(_) =>
    case Writing(_) =>
    case _ =>
  }

  lemma {:induction false} CountStepMain(s: State, ok: bool)
    requires ThreadInv(s) && CountInv(s)
    ensures CountInv(NextMain(s, ok))
  {
    MainTouches(s, ok);
  }

  lemma {:induction false} CountStepDrain(s: State, ok: bool, frame: Frame)
    requires CountInv(s)
    ensures CountInv(NextDrain(s, ok, frame))
  {
    match s.drain
    case Holding(_) =>
    case Writing(_) =>
    case _ =>
  }

  lemma {:induction false} QuietStepMain(s: State, ok: bool)
    requires ThreadInv(s) && QuietInv(s)
    ensures QuietInv(NextMain(s, ok))
  {
    MainTouches(s, ok);
  }

  lemma {:induction false} QuietStepDrain(s: State, ok: bool, frame: Frame)
    requires QuietInv(s)
    ensures QuietInv(NextDrain(s, ok, frame))
  {
    match s.drain
    case Holding(_) =>
    case Writing(_) =>
    case _ =>
  }

  lemma {:induction false} OrderStepMain(s: State, ok: bool)
    requires ThreadInv(s) && OrderInv(s)
    ensures OrderInv(NextMain(s, ok))
  {
    MainTouches(s, ok);
    var t := NextMain(s, ok);
    assert LastDrain(t.trace) == LastDrain(s.trace);
  }

  lemma {:induction false} OrderStepDrain(s: State, ok: bool, frame: Frame)
    requires OrderInv(s)
    ensures OrderInv(NextDrain(s, ok, frame))
  {
    match s.drain
    case Holding(_) =>
    case Writing(_) =>
    case _ =>
  }

  lemma {:induction false} EndStepMain(s: State, ok: bool)
    requires ThreadInv(s) && EndInv(s)
    ensures EndInv(NextMain(s, ok))
  {
    MainTouches(s, ok);
  }

  lemma {:induction false} EndStepDrain(s: State, ok: bool, frame: Frame)
    requires EndInv(s)
    ensures EndInv(NextDrain(s, ok, frame))
  {
    match s.drain
    case Holding(_) =>
    case Writing(_) =>
    case _ =>
  }

  lemma {:induction false} ServedStepMain(s: State, ok: bool)
    requires ServedInv(s)
    ensures ServedInv(NextMain(s, ok))
  {
    match s.main
    case Alloc =>
    case Feed =>
    case Join(_) =>
    case _ =>
  }

  lemma {:induction false} ServedStepDrain(s: State, ok: bool, frame: Frame)
    requires ServedInv(s)
    ensures ServedInv(NextDrain(s, ok, frame))
  {
    match s.drain
    case Holding(_) =>
    case Writing(_) =>
    case _ =>
  }

  lemma InvStepMain(s: State, ok: bool)
    requires Inv(s)
    ensures Inv(NextMain(s, ok))
  {
    ResourceStep(s, ok);
    ThreadStepMain(s, ok);
    MapsStepMain(s, ok);
    ReleaseStepMain(s, ok);
    CountStepMain(s, ok);
    QuietStepMain(s, ok);
    OrderStepMain(s, ok);
    EndStepMain(s, ok);
    ServedStepMain(s, ok);
  }

  lemma InvStepDrain(s: State, ok: bool, frame: Frame)
    requires Inv(s)
    ensures Inv(NextDrain(s, ok, frame))
  {
    ResourceKept(s, ok, frame);
    ThreadStepDrain(s, ok, frame);
    MapsStepDrain(s, ok, frame);
    ReleaseStepDrain(s, ok, frame);
    CountStepDrain(s, ok, frame);
    QuietStepDrain(s, ok, frame);
    OrderStepDrain(s, ok, frame);
    EndStepDrain(s, ok, frame);
    ServedStepDrain(s, ok, frame);
  }

  lemma InvStep(s: State, a: Action)
    requires Inv(s)
    ensures Inv(Next(s, a))
  {
    match a
    case MainStep(ok) => InvStepMain(s, ok);
    case DrainStep(ok, frame) => InvStepDrain(s, ok, frame);
    case Signal => InvSignal(s);
  }

  lemma {:induction false} SignalKeepsMain(s: State)
    requires SetupShape(s) && ResourceInv(s) && ThreadInv(s) && MapsInv(s)
    ensures var t := Next(s, Signal); SetupShape(t) && ResourceInv(t) && ThreadInv(t) && MapsInv(t)
  {
    var t := Next(s, Signal);
    assert Acquired(t) == Acquired(s) && Owed(t) == Owed(s);
  }

  lemma {:induction false} SignalKeepsDrain(s: State)
    requires ReleaseInv(s) && CountInv(s) && QuietInv(s) && OrderInv(s)
    ensures var t := Next(s, Signal); ReleaseInv(t) && CountInv(t) && QuietInv(t) && OrderInv(t)
  {
  }

  lemma {:induction false} InvSignal(s: State)
    requires Inv(s)
    ensures Inv(Next(s, Signal))
  {
    SignalKeepsMain(s);
    SignalKeepsDrain(s);
  }

  lemma {:induction false} RunInv(s: State, actions: seq<Action>)
    requires Inv(s)
    ensures Inv(Run(s, actions))
    decreases |actions|
  {
    if actions != [] {
      InvStep(s, actions[0]);
      RunInv(Next(s, actions[0]), actions[1..]);
    }
  }

  // ----- every run of a session

  /** Each received frame is released exactly once before the next is received; the counters account
      for every frame, up to one refused or unwritable frame that ends the session; and after that
      frame nothing more is received, converted or written. */
  lemma FramesAccountedFor(actions: seq<Action>)
    ensures var t := Run(INITIAL, actions);
            && ReleasedOnce(t.trace) && SilentAfterTerminal(t.trace) && t.count.terminal <= 1
            && (t.drain.Gone? || t.drain.Joined? ==>
                  && Count(t.trace, Received) == Count(t.trace, Released)
                  && Count(t.trace, Received) == t.count.frames + t.count.fails + t.count.terminal)
            && Count(t.trace, Wrote(2)) == t.count.frames
  {
    RunInv(INITIAL, actions);
    ReleasedOnceCounts(Run(INITIAL, actions).trace);
  }

  /** In every run the drain thread handles one frame after the other: received, then refused, dropped or
      converted, then written as header, luma and chroma in this order up to a failure, then released. */
  lemma FramesHandledInOrder(actions: seq<Action>)
    ensures InOrder(Run(INITIAL, actions).trace)
  {
    RunInv(INITIAL, actions);
  }

  /** Whatever call fails, a session that returns has undone exactly what it acquired, in reverse
      order, after the drain thread (if any) was joined; and no mapping is used after the clear. */
  lemma CleanupIsExact(actions: seq<Action>)
    ensures var t := Run(INITIAL, actions);
            && JoinedBeforeCleanup(t.trace) && MapsUnusedAfterClear(t.trace)
            && (t.main.Returned? ==>
                  Resources(t.trace) == ACQUIRE[..Acquired(t)] + Undone(ACQUIRE[..Acquired(t)]))
  {
    RunInv(INITIAL, actions);
    ReturnedClean(Run(INITIAL, actions));
  }

  lemma ReturnedClean(t: State)
    requires Inv(t)
    ensures t.main.Returned? ==> Resources(t.trace) == ACQUIRE[..Acquired(t)] + Undone(ACQUIRE[..Acquired(t)])
  {
    AllUndone(Acquired(t));
  }

  lemma AllUndone(n: nat)
    requires n <= 3
    ensures CallsSoFar(n, 0) == ACQUIRE[..n] + Undone(ACQUIRE[..n])
  {
    UndoneFrom(n, 0);
    assert ACQUIRE[..n][0..] == ACQUIRE[..n];
  }

  lemma {:induction false} UndoneFrom(n: nat, owed: nat)
    requires owed <= n <= 3
    ensures CallsSoFar(n, owed) == ACQUIRE[..n] + Undone(ACQUIRE[..n][owed..])
    decreases n - owed
  {
    if owed < n {
      UndoneFrom(n, owed + 1);
      assert ACQUIRE[..n][owed..][1..] == ACQUIRE[..n][owed + 1..];
    }
  }

  /** How a session ends: the drain thread is gone only once the end was asked for; the session thread
      leaves its loop only then or after a failed feed; and it returns 0 exactly if the input buffer was
      allocated, else -1, with the mappings cleared. */
  lemma EndsForAReason(actions: seq<Action>)
    ensures var t := Run(INITIAL, actions);
            && (t.drain.Gone? || t.drain.Joined? ==> t.ctl.stop || !t.ctl.running)
            && (t.main == Stopping(true) ==> t.ctl.stop || !t.ctl.running || Has(t.trace, FeedFailed))
            && (t.main.Returned? ==> Has(t.trace, ClearedMaps) && (t.main.rc == 0 || t.main.rc == -1))
            && (t.main.Returned? ==> (t.main.rc == 0 <==> Has(t.trace, AllocatedInput)))
  {
    RunInv(INITIAL, actions);
  }

  // ----- a session that is to end does end

  /** Steps the drain thread can still take once the session is to end. */
  function DrainRank(d: DrainPc): nat {
    match d
    case NotStarted => 9
    case AllocScratch => 2
    case Polling => 8
    case Holding(_) => 7
    case Refusing => 2
    case Leaving => 1
    case Writing(part) => if part <= 2 then 6 - part else 4
    case Failing => 3
    case Releasing => 2
    case Top => 1
    case Gone => 0
    case Joined => 0
  }

  function MainRank(m: MainPc): nat {
    match m
    case GetDefault => 17
    case Create => 16
    case Open => 15
    case GetAttr => 14
    case SetAttr => 13
    case GetHandles => 12
    case StartChannel => 11
    case Spawn => 10
    case Alloc => 9
    case Feed => 8
    case Serve => 7
    case Stopping(_) => 6
    case Join(_) => 5
    case ClearMaps => 4
    case StopChannel => 3
    case CloseChannel => 2
    case Destroy => 1
    case Returned(_) => 0
  }

  function Rank(s: State): nat { MainRank(s.main) + DrainRank(s.drain) }

  predicate DrainActive(d: DrainPc) { !d.NotStarted? && !d.Joined? && !d.Gone? }

  /** Once the end was asked for, every step of the drain thread brings it closer to its exit. */
  lemma EndingDrainStep(s: State, ok: bool, frame: Frame)
    requires Ending(s) && (s.drain.Writing? ==> s.drain.part <= 2) && DrainActive(s.drain)
    ensures var t := NextDrain(s, ok, frame);
            && Ending(t) && (t.drain.Writing? ==> t.drain.part <= 2) && !t.drain.NotStarted? && !t.drain.Joined?
            && DrainRank(t.drain) < DrainRank(s.drain) && t.main == s.main
  {
  }

  ghost predicate OnlyDrain(actions: seq<Action>) { forall a :: a in actions ==> a.DrainStep? }

  /** Once the end was asked for, the drain thread leaves within eight of its own steps. */
  lemma {:induction false} StoppedDrainExits(s: State, actions: seq<Action>)
    requires Ending(s) && !s.drain.NotStarted? && !s.drain.Joined? && (s.drain.Writing? ==> s.drain.part <= 2)
    requires OnlyDrain(actions) && |actions| >= DrainRank(s.drain)
    ensures Run(s, actions).drain.Gone?
    decreases |actions|
  {
    if actions != [] {
      var a := actions[0];
      assert a in actions;
      if !s.drain.Gone? { EndingDrainStep(s, a.ok, a.frame); }
      StoppedDrainExits(Next(s, a), actions[1..]);
    }
  }

  /** The end was asked for, or the session thread is cleaning up. */
  predicate Settled(s: State) { Ending(s) || CleaningUp(s.main) }

  /** The session thread waits for the drain thread. */
  predicate Waiting(s: State) { s.main.Join? && !s.drain.Gone? }

  lemma MainProgress(s: State, ok: bool)
    requires ThreadInv(s) && Settled(s)
    ensures var t := NextMain(s, ok);
            && Settled(t) && (if Waiting(s) || s.main.Returned? then t == s else Rank(t) < Rank(s))
  {
  }

  lemma DrainProgress(s: State, ok: bool, frame: Frame)
    requires ThreadInv(s) && Settled(s) && (s.drain.Writing? ==> s.drain.part <= 2)
    ensures var t := NextDrain(s, ok, frame);
            Settled(t) && t.main == s.main && (if DrainActive(s.drain) then Rank(t) < Rank(s) else t == s)
  {
    if DrainActive(s.drain) { EndingDrainStep(s, ok, frame); }
  }

  lemma {:induction false} RunSplit(s: State, actions: seq<Action>, k: nat)
    requires k <= |actions|
    ensures Run(s, actions) == Run(Run(s, actions[..k]), actions[k..])
    decreases k
  {
    if k == 0 {
      assert actions[..0] == [] && actions[0..] == actions;
    } else {
      RunSplit(Next(s, actions[0]), actions[1..], k - 1);
      assert actions[..k][1..] == actions[1..][..k - 1] && actions[1..][k - 1..] == actions[k..];
    }
  }

  /** Some run leads to the state. */
  ghost predicate Reachable(s: State) { exists before :: Run(INITIAL, before) == s }

  lemma ReachableRun(s: State, actions: seq<Action>)
    requires Reachable(s)
    ensures Reachable(Run(s, actions))
  {
    var before :| Run(INITIAL, before) == s;
    RunSplit(INITIAL, before + actions, |before|);
    assert (before + actions)[..|before|] == before && (before + actions)[|before|..] == actions;
  }

  lemma ReachableStep(s: State, a: Action)
    requires Reachable(s)
    ensures Reachable(Next(s, a))
  {
    ReachableRun(s, [a]);
    assert Run(s, [a]) == Next(s, a);
  }

  lemma ReachableThreads(s: State)
    requires Reachable(s)
    ensures ThreadInv(s) && EndInv(s) && (s.drain.Writing? ==> s.drain.part <= 2)
  {
    var before :| Run(INITIAL, before) == s;
    RunInv(INITIAL, before);
  }

  /** Nothing moved: no step of the session thread unless it waits or has returned, and none of the drain
      thread unless it is not running. */
  ghost predicate Idle(s: State, t: State, actions: seq<Action>) {
    && t.main == s.main && t.drain == s.drain
    && (HasMain(actions) ==> Waiting(s) || s.main.Returned?)
    && (HasDrain(actions) ==> !DrainActive(s.drain))
  }

  ghost predicate HasMain(actions: seq<Action>) { exists a :: a in actions && a.MainStep? }

  ghost predicate HasDrain(actions: seq<Action>) { exists a :: a in actions && a.DrainStep? }

  lemma HasCons(actions: seq<Action>)
    requires actions != []
    ensures HasMain(actions) <==> actions[0].MainStep? || HasMain(actions[1..])
    ensures HasDrain(actions) <==> actions[0].DrainStep? || HasDrain(actions[1..])
  {
    assert actions == [actions[0]] + actions[1..];
  }

  lemma StepProgress(s: State, a: Action)
    requires Reachable(s) && Settled(s)
    ensures Settled(Next(s, a)) && (Rank(Next(s, a)) < Rank(s) || Idle(s, Next(s, a), [a]))
  {
    ReachableThreads(s);
    match a
    case MainStep(ok) => MainProgress(s, ok);
    case DrainStep(ok, frame) => DrainProgress(s, ok, frame);
    case Signal =>
  }

  lemma IdleTwice(s: State, t: State, u: State, a: Action, rest: seq<Action>)
    requires Idle(s, t, [a]) && Idle(t, u, rest)
    ensures Idle(s, u, [a] + rest)
  {
    assert a in [a];
    HasCons([a] + rest);
    assert ([a] + rest)[1..] == rest;
  }

  lemma {:induction false} Progress(s: State, actions: seq<Action>)
    requires Reachable(s) && Settled(s)
    ensures var t := Run(s, actions); Settled(t) && (Rank(t) < Rank(s) || Idle(s, t, actions))
    decreases |actions|
  {
    if actions != [] {
      var a, n := actions[0], Next(s, actions[0]);
      StepProgress(s, a);
      ReachableStep(s, a);
      Progress(n, actions[1..]);
      if Idle(s, n, [a]) && Idle(n, Run(s, actions), actions[1..]) {
        IdleTwice(s, n, Run(s, actions), a, actions[1..]);
        assert [a] + actions[1..] == actions;
      }
    }
  }

  /** Both threads take a step. */
  ghost predicate Round(actions: seq<Action>) { HasMain(actions) && HasDrain(actions) }

  ghost predicate AllRounds(rounds: seq<seq<Action>>) { forall i :: 0 <= i < |rounds| ==> Round(rounds[i]) }

  function Flatten(rounds: seq<seq<Action>>): seq<Action> {
    if rounds == [] then [] else rounds[0] + Flatten(rounds[1..])
  }

  lemma RunFirst(s: State, rounds: seq<seq<Action>>)
    requires rounds != []
    ensures Run(s, Flatten(rounds)) == Run(Run(s, rounds[0]), Flatten(rounds[1..]))
  {
    var all := Flatten(rounds);
    RunSplit(s, all, |rounds[0]|);
    assert all[..|rounds[0]|] == rounds[0] && all[|rounds[0]|..] == Flatten(rounds[1..]);
  }

  /** In a round a settled session moves, unless it has returned. */
  lemma RoundMoves(s: State, actions: seq<Action>)
    requires Reachable(s) && Settled(s) && Round(actions) && !s.main.Returned?
    ensures Settled(Run(s, actions)) && Rank(Run(s, actions)) < Rank(s)
  {
    Progress(s, actions);
    ReachableThreads(s);
  }

  lemma {:induction false} ReturnedStays(s: State, actions: seq<Action>)
    requires s.main.Returned?
    ensures Run(s, actions).main == s.main
    decreases |actions|
  {
    if actions != [] { ReturnedStays(Next(s, actions[0]), actions[1..]); }
  }

  lemma {:induction false} SettledReturns(s: State, rounds: seq<seq<Action>>)
    requires Reachable(s) && Settled(s) && AllRounds(rounds) && |rounds| >= Rank(s)
    ensures Run(s, Flatten(rounds)).main.Returned?
    decreases |rounds|
  {
    if s.main.Returned? {
      ReturnedStays(s, Flatten(rounds));
    } else {
      RunFirst(s, rounds);
      ReachableRun(s, rounds[0]);
      RoundMoves(s, rounds[0]);
      SettledReturns(Run(s, rounds[0]), rounds[1..]);
    }
  }

  /** Within `n` more steps of the drain thread the end is asked for. */
  predicate DrainStops(s: State, n: nat) {
    || Ending(s) || (n >= 1 && (s.drain.Leaving? || s.drain.Failing?)) || (n >= 2 && s.drain.Refusing?)
  }

  lemma DrainStopsStep(s: State, a: Action, n: nat)
    requires Reachable(s) && DrainStops(s, n)
    ensures DrainStops(Next(s, a), if a.DrainStep? && n > 0 then n - 1 else n)
  {
    ReachableThreads(s);
    if a.MainStep? { MainTouches(s, a.ok); }
  }

  lemma {:induction false} DrainStopsSoon(s: State, actions: seq<Action>, n: nat)
    requires Reachable(s) && DrainStops(s, n)
    ensures DrainStops(Run(s, actions), if HasDrain(actions) && n > 0 then n - 1 else n)
    decreases |actions|
  {
    if actions != [] {
      var a := actions[0];
      DrainStopsStep(s, a, n);
      ReachableStep(s, a);
      HasCons(actions);
      DrainStopsSoon(Next(s, a), actions[1..], if a.DrainStep? && n > 0 then n - 1 else n);
    }
  }

  /** The session thread is about to ask for the end, or the end was asked for. */
  predicate MainStops(s: State) { s.main.Stopping? || Ending(s) }

  lemma {:induction false} MainStopsSoon(s: State, actions: seq<Action>)
    requires MainStops(s)
    ensures MainStops(Run(s, actions)) && (HasMain(actions) ==> Ending(Run(s, actions)))
    decreases |actions|
  {
    if actions != [] {
      HasCons(actions);
      var n := Next(s, actions[0]);
      assert MainStops(n) && (actions[0].MainStep? ==> Ending(n));
      MainStopsSoon(n, actions[1..]);
      if Ending(n) { EndingStays(n, actions[1..]); }
    }
  }

  lemma {:induction false} EndingStays(s: State, actions: seq<Action>)
    requires Ending(s)
    ensures Ending(Run(s, actions))
    decreases |actions|
  {
    if actions != [] {
      assert Ending(Next(s, actions[0]));
      EndingStays(Next(s, actions[0]), actions[1..]);
    }
  }

  /** The session is over in fact: the end was asked for, a frame was refused or could not be written, or
      the session thread has left its loop. */
  ghost predicate Doomed(s: State) {
    Settled(s) || Over(s.trace) || s.main.Stopping? || s.main.Join?
  }

  lemma DoomedThread(s: State)
    requires Reachable(s) && Doomed(s)
    ensures Settled(s) || MainStops(s) || DrainStops(s, 2)
  {
    ReachableThreads(s);
    var before :| Run(INITIAL, before) == s;
    RunInv(INITIAL, before);
  }

  lemma DoomedSettles(s: State, first: seq<Action>, second: seq<Action>)
    requires Reachable(s) && Doomed(s) && Round(first) && Round(second)
    ensures Settled(Run(Run(s, first), second))
  {
    var mid := Run(s, first);
    DoomedThread(s);
    ReachableRun(s, first);
    if Settled(s) {
      Progress(s, first);
      Progress(mid, second);
    } else if MainStops(s) {
      MainStopsSoon(s, first);
      Progress(mid, second);
    } else {
      DrainStopsSoon(s, first, 2);
      DrainStopsSoon(mid, second, 1);
    }
  }

  lemma RankBound(s: State)
    ensures Rank(s) <= 26
  {
  }

  /** Every run ends the session once it is over in fact: after 28 rounds in each of which both threads
      take a step, in any order and with anything in between, the session thread has returned. */
  lemma SessionReturns(before: seq<Action>, rounds: seq<seq<Action>>)
    requires Doomed(Run(INITIAL, before)) && AllRounds(rounds) && |rounds| >= 28
    ensures Run(Run(INITIAL, before), Flatten(rounds)).main.Returned?
  {
    var s := Run(INITIAL, before);
    var mid, rest := Run(s, rounds[0]), rounds[1..];
    RunFirst(s, rounds);
    RunFirst(mid, rest);
    DoomedSettles(s, rounds[0], rest[0]);
    ReachableRun(s, rounds[0]);
    ReachableRun(mid, rest[0]);
    RankBound(Run(mid, rest[0]));
    SettledReturns(Run(mid, rest[0]), rest[1..]);
  }
}

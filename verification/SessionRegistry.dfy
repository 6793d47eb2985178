/** The two-level session map: peers, and the UI sessions of each peer. */
module SessionRegistry {
  import opened Options

  type PeerKey = nat
  type SessionId = nat
  type Thread = nat

  /** A peer session (identified by `token`) and the ids of its UI sessions. */
  datatype Peer = Peer(token: nat, ids: set<SessionId>)

  type Registry = map<PeerKey, Peer>

  // ----- the operations on values

  /** Creates the peer if needed, with the given session object. */
  function AddSession(r: Registry, key: PeerKey, token: nat, id: SessionId): Registry {
    r[key := if key in r then Peer(r[key].token, r[key].ids + {id}) else Peer(token, {id})]
  }

  /** Adds a UI session to a peer that must already exist. */
  function AddToPeer(r: Registry, key: PeerKey, id: SessionId): Registry {
    if key in r then r[key := Peer(r[key].token, r[key].ids + {id})] else r
  }

  ghost predicate Holds(r: Registry, key: PeerKey, id: SessionId) { key in r && id in r[key].ids }

  /** The peer that holds a UI session. */
  ghost function Holder(r: Registry, id: SessionId): Option<PeerKey> {
    if exists k :: Holds(r, k, id) then (var k :| Holds(r, k, id); Some(k)) else None
  }

  /** First critical section of a removal: take the id out of its peer. */
  ghost function Detach(r: Registry, id: SessionId): Registry {
    var h := Holder(r, id);
    if h.None? then r else r[h.value := Peer(r[h.value].token, r[h.value].ids - {id})]
  }

  /** Which peer the second critical section will drop. */
  ghost function Emptied(r: Registry, id: SessionId): Option<PeerKey> {
    var h := Holder(r, id);
    if h.Some? && r[h.value].ids == {id} then h else None
  }

  /** Both critical sections back to back: the registry left, and the peer session returned. */
  ghost function Remove(r: Registry, id: SessionId): (Registry, Option<Peer>) {
    var e := Emptied(r, id);
    if e.None? then (Detach(r, id), None) else (Detach(r, id) - {e.value}, Some(Detach(r, id)[e.value]))
  }

  ghost predicate WouldRemove(r: Registry, id: SessionId) {
    exists k :: Holds(r, k, id) && |r[k].ids| == 1
  }

  ghost predicate UniqueIds(r: Registry) {
    forall k, l, id :: Holds(r, k, id) && Holds(r, l, id) ==> k == l
  }

  lemma HolderUnique(r: Registry, id: SessionId, k: PeerKey)
    requires UniqueIds(r) && Holds(r, k, id)
    ensures Holder(r, id) == Some(k)
  {
  }

  lemma SingletonSet(s: set<SessionId>, id: SessionId)
    requires id in s
    ensures |s| == 1 <==> s == {id}
  {
    assert s == {id} + (s - {id});
  }

  lemma HeldAfterDetach(r: Registry, id: SessionId, k: PeerKey, x: SessionId)
    requires UniqueIds(r)
    ensures Holds(Detach(r, id), k, x) <==> Holds(r, k, x) && x != id
  {
    if Holds(r, k, id) { HolderUnique(r, id, k); }
  }

  /** The prediction is right exactly: it is true if and only if an undisturbed removal returns a
      peer session, and then that session has no UI session left. */
  lemma PredictionExact(r: Registry, id: SessionId)
    requires UniqueIds(r)
    ensures WouldRemove(r, id) <==> Remove(r, id).1.Some?
    ensures Remove(r, id).1.Some? ==>
              exists k :: Holds(r, k, id) && Remove(r, id).1.value == Peer(r[k].token, {}) && Remove(r, id).0 == r - {k}
    ensures forall k, x :: Holds(Remove(r, id).0, k, x) <==> Holds(r, k, x) && x != id
  {
    var h := Holder(r, id);
    if h.Some? {
      SingletonSet(r[h.value].ids, id);
      if Emptied(r, id) == h { assert Detach(r, id) - {h.value} == r - {h.value}; }
    }
    forall k, x ensures Holds(Remove(r, id).0, k, x) <==> Holds(r, k, x) && x != id {
      HeldAfterDetach(r, id, k, x);
      if Holds(r, k, id) { HolderUnique(r, id, k); }
    }
  }

  // ----- critical sections of all threads, in any order

  /** The registry, and the peer that each thread between its two critical sections will drop. */
  datatype State = State(peers: Registry, pending: map<Thread, PeerKey>)

  /** One critical section. A removal is `DetachId`, and later `DropPeer` if it emptied a peer. */
  datatype Op =
    | Insert(key: PeerKey, token: nat, id: SessionId)
    | InsertPeer(key: PeerKey, id: SessionId)
    | DetachId(thread: Thread, id: SessionId)
    | DropPeer(thread: Thread)

  ghost function Step(s: State, op: Op): State {
    match op
    case Insert(key, token, id) => State(AddSession(s.peers, key, token, id), s.pending)
    case InsertPeer(key, id) => State(AddToPeer(s.peers, key, id), s.pending)
    case DetachId(t, id) =>
      var e := Emptied(s.peers, id);
      State(Detach(s.peers, id), if e.None? then s.pending else s.pending[t := e.value])
    case DropPeer(t) => if t in s.pending then State(s.peers - {s.pending[t]}, s.pending - {t}) else s
  }

  /** A thread does one removal at a time; session ids are new when they are inserted. */
  ghost predicate Enabled(s: State, op: Op) {
    match op
    case DetachId(t, _) => t !in s.pending
    case DropPeer(t) => t in s.pending
    case _ => forall k :: !Holds(s.peers, k, op.id)
  }

  ghost function Run(s: State, ops: seq<Op>): State {
    if ops == [] then s else Step(Run(s, ops[..|ops| - 1]), ops[|ops| - 1])
  }

  ghost predicate IsRun(s: State, ops: seq<Op>) {
    ops == [] || (IsRun(s, ops[..|ops| - 1]) && Enabled(Run(s, ops[..|ops| - 1]), ops[|ops| - 1]))
  }

  /** Every id is under at most one peer, and whoever emptied a peer is about to drop it. */
  ghost predicate Inv(s: State) {
    UniqueIds(s.peers) && forall k :: k in s.peers && s.peers[k].ids == {} ==> k in s.pending.Values
  }

  // ----- what a critical section does to one session

  /** The section reports success for putting `id` under `key`. */
  ghost predicate Adds(s: State, op: Op, key: PeerKey, id: SessionId) {
    (op.Insert? && op.key == key && op.id == id) || (op.InsertPeer? && op.key == key && op.id == id && key in s.peers)
  }

  /** The section removes `id`, or drops the peer `key` as a whole. */
  ghost predicate Removes(s: State, op: Op, key: PeerKey, id: SessionId) {
    (op.DetachId? && op.id == id) || (op.DropPeer? && op.thread in s.pending && s.pending[op.thread] == key)
  }

  lemma HeldAfterStep(s: State, op: Op, key: PeerKey, id: SessionId)
    requires UniqueIds(s.peers)
    ensures Holds(Step(s, op).peers, key, id) <==>
            Adds(s, op, key, id) || (Holds(s.peers, key, id) && !Removes(s, op, key, id))
  {
    if op.DetachId? { HeldAfterDetach(s.peers, op.id, key, id); }
  }

  lemma UniqueAfterStep(s: State, op: Op)
    requires UniqueIds(s.peers) && Enabled(s, op)
    ensures UniqueIds(Step(s, op).peers)
  {
    var t := Step(s, op);
    forall k, l, id | Holds(t.peers, k, id) && Holds(t.peers, l, id) ensures k == l {
      HeldAfterStep(s, op, k, id);
      HeldAfterStep(s, op, l, id);
    }
  }

  lemma EmptyAfterStep(s: State, op: Op, key: PeerKey)
    requires Inv(s) && Enabled(s, op) && key in Step(s, op).peers && Step(s, op).peers[key].ids == {}
    ensures key in Step(s, op).pending.Values
  {
    var t := Step(s, op);
    match op
    case Insert(_, _, _) =>
    case InsertPeer(_, _) =>
    case DetachId(th, id) =>
      if s.peers[key].ids == {} {
        var other :| other in s.pending && s.pending[other] == key;
        assert other in t.pending && t.pending[other] == key;
      } else {
        assert s.peers[key].ids - {id} == {};
        assert s.peers[key].ids == {id} && Holds(s.peers, key, id);
        HolderUnique(s.peers, id, key);
        assert t.pending[th] == key;
      }
    case DropPeer(th) =>
      var other :| other in s.pending && s.pending[other] == key;
      assert other in t.pending && t.pending[other] == key;
  }

  lemma InvStep(s: State, op: Op)
    requires Inv(s) && Enabled(s, op)
    ensures Inv(Step(s, op))
  {
    UniqueAfterStep(s, op);
    forall k | k in Step(s, op).peers && Step(s, op).peers[k].ids == {} ensures k in Step(s, op).pending.Values {
      EmptyAfterStep(s, op, k);
    }
  }

  /** In every interleaving, each id stays under at most one peer, and every peer without sessions
      is about to be dropped by a thread inside its removal. */
  lemma {:induction false} RunKeepsInv(s: State, ops: seq<Op>)
    requires Inv(s) && IsRun(s, ops)
    ensures Inv(Run(s, ops))
  {
    if ops != [] {
      RunKeepsInv(s, ops[..|ops| - 1]);
      InvStep(Run(s, ops[..|ops| - 1]), ops[|ops| - 1]);
    }
  }

  /** When no removal is under way, no peer is without sessions. */
  lemma QuiescentHasNoEmptyPeer(ops: seq<Op>, key: PeerKey)
    requires IsRun(State(map[], map[]), ops) && Run(State(map[], map[]), ops).pending == map[]
    requires key in Run(State(map[], map[]), ops).peers
    ensures Run(State(map[], map[]), ops).peers[key].ids != {}
  {
    RunKeepsInv(State(map[], map[]), ops);
  }

  // ----- which sessions a run leaves under a peer

  /** No section of the run from position `i` on takes `id` away from `key`. */
  ghost predicate Undisturbed(s: State, ops: seq<Op>, key: PeerKey, id: SessionId, i: nat) {
    forall j :: i <= j < |ops| ==> !Removes(Run(s, ops[..j]), ops[j], key, id)
  }

  /** Section `i` of the run put `id` under `key`, and no later one took it away. */
  ghost predicate AddedAt(s: State, ops: seq<Op>, key: PeerKey, id: SessionId, i: nat) {
    i < |ops| && Adds(Run(s, ops[..i]), ops[i], key, id) && Undisturbed(s, ops, key, id, i + 1)
  }

  ghost predicate AddedAndKept(s: State, ops: seq<Op>, key: PeerKey, id: SessionId) {
    exists i :: AddedAt(s, ops, key, id, i)
  }

  lemma UndisturbedSnoc(s: State, ops: seq<Op>, key: PeerKey, id: SessionId, i: nat)
    requires ops != [] && i < |ops|
    ensures var front, n := ops[..|ops| - 1], |ops| - 1;
            Undisturbed(s, ops, key, id, i) <==>
            Undisturbed(s, front, key, id, i) && !Removes(Run(s, front), ops[n], key, id)
  {
    var front := ops[..|ops| - 1];
    assert forall j :: 0 <= j < |front| ==> front[..j] == ops[..j] && front[j] == ops[j];
  }

  lemma AddedAtSnoc(s: State, ops: seq<Op>, key: PeerKey, id: SessionId, i: nat)
    requires i < |ops|
    ensures var front, op := ops[..|ops| - 1], ops[|ops| - 1];
            AddedAt(s, ops, key, id, i) <==>
            if i == |ops| - 1 then Adds(Run(s, front), op, key, id)
            else AddedAt(s, front, key, id, i) && !Removes(Run(s, front), op, key, id)
  {
    var front := ops[..|ops| - 1];
    if i < |ops| - 1 {
      UndisturbedSnoc(s, ops, key, id, i + 1);
      assert front[..i] == ops[..i];
    }
  }

  lemma AddedAndKeptSnoc(s: State, ops: seq<Op>, key: PeerKey, id: SessionId)
    requires ops != []
    ensures var front, op := ops[..|ops| - 1], ops[|ops| - 1];
            AddedAndKept(s, ops, key, id) <==>
            || Adds(Run(s, front), op, key, id)
            || (AddedAndKept(s, front, key, id) && !Removes(Run(s, front), op, key, id))
  {
    var n := |ops| - 1;
    if i: nat :| AddedAt(s, ops, key, id, i) {
      AddedAtSnoc(s, ops, key, id, i);
      assert i < n ==> AddedAt(s, ops[..n], key, id, i);
    }
    AddedAtSnoc(s, ops, key, id, n);
    if i: nat :| AddedAt(s, ops[..n], key, id, i) { AddedAtSnoc(s, ops, key, id, i); }
  }

  /** A session is under a peer after a run if and only if it was there and nothing removed it, or
      the run put it there and nothing removed it since. */
  lemma {:induction false} HeldAfterRun(s: State, ops: seq<Op>, key: PeerKey, id: SessionId)
    requires Inv(s) && IsRun(s, ops)
    ensures Holds(Run(s, ops).peers, key, id) <==>
            (Holds(s.peers, key, id) && Undisturbed(s, ops, key, id, 0)) || AddedAndKept(s, ops, key, id)
  {
    if ops != [] {
      var front, op := ops[..|ops| - 1], ops[|ops| - 1];
      RunKeepsInv(s, front);
      HeldAfterRun(s, front, key, id);
      HeldAfterStep(Run(s, front), op, key, id);
      UndisturbedSnoc(s, ops, key, id, 0);
      AddedAndKeptSnoc(s, ops, key, id);
    }
  }

  // ----- the removal takes the lock twice

  /** Critical sections of the other threads. */
  ghost predicate ByOthers(ops: seq<Op>, t: Thread) {
    forall op :: op in ops && (op.DetachId? || op.DropPeer?) ==> op.thread != t
  }

  lemma {:induction false} PendingStays(s: State, ops: seq<Op>, t: Thread)
    requires t in s.pending && ByOthers(ops, t)
    ensures t in Run(s, ops).pending && Run(s, ops).pending[t] == s.pending[t]
  {
    if ops != [] {
      assert ops[|ops| - 1] in ops;
      PendingStays(s, ops[..|ops| - 1], t);
    }
  }

  /** The session was there when the second critical section began and is gone after it. */
  ghost predicate Lost(s: State, t: Thread, key: PeerKey, id: SessionId) {
    Holds(s.peers, key, id) && !Holds(Step(s, DropPeer(t)).peers, key, id)
  }

  /** A removal that emptied peer `key`, any sections of other threads, then its drop: the drop takes
      away exactly the sessions that were put under `key` in between and not removed again. */
  lemma DropLosesExactly(s: State, t: Thread, id0: SessionId, key: PeerKey, gap: seq<Op>, k: PeerKey, id: SessionId)
    requires Inv(s) && t !in s.pending && Emptied(s.peers, id0) == Some(key)
    requires IsRun(Step(s, DetachId(t, id0)), gap) && ByOthers(gap, t)
    ensures var d := Step(s, DetachId(t, id0));
            && t in Run(d, gap).pending && Run(d, gap).pending[t] == key
            && (Lost(Run(d, gap), t, k, id) <==> k == key && AddedAndKept(d, gap, key, id))
  {
    var d := Step(s, DetachId(t, id0));
    InvStep(s, DetachId(t, id0));
    PendingStays(d, gap, t);
    HeldAfterRun(d, gap, k, id);
    assert d.peers[key].ids == {};
  }

  /** So the two critical sections lose no session if and only if none was put under the emptied
      peer in between and left there. */
  lemma NothingLostExactly(s: State, t: Thread, id0: SessionId, key: PeerKey, gap: seq<Op>)
    requires Inv(s) && t !in s.pending && Emptied(s.peers, id0) == Some(key)
    requires IsRun(Step(s, DetachId(t, id0)), gap) && ByOthers(gap, t)
    ensures var d := Step(s, DetachId(t, id0));
            (forall k, id :: !Lost(Run(d, gap), t, k, id)) <==> (forall id :: !AddedAndKept(d, gap, key, id))
  {
    var d := Step(s, DetachId(t, id0));
    forall k, id ensures Lost(Run(d, gap), t, k, id) ==> AddedAndKept(d, gap, key, id) {
      DropLosesExactly(s, t, id0, key, gap, k, id);
    }
    forall id ensures AddedAndKept(d, gap, key, id) ==> Lost(Run(d, gap), t, key, id) {
      DropLosesExactly(s, t, id0, key, gap, key, id);
    }
  }

  /** It does happen: a session inserted into the emptied peer, successfully, is dropped with it. */
  lemma LateDropLosesSession(s: State, t: Thread, id0: SessionId, key: PeerKey, added: SessionId)
    requires Inv(s) && t !in s.pending && Emptied(s.peers, id0) == Some(key) && forall k :: !Holds(s.peers, k, added)
    ensures var d := Step(s, DetachId(t, id0));
            Adds(d, InsertPeer(key, added), key, added) && Lost(Run(d, [InsertPeer(key, added)]), t, key, added)
  {
    var d, gap := Step(s, DetachId(t, id0)), [InsertPeer(key, added)];
    forall k ensures !Holds(d.peers, k, added) { HeldAfterStep(s, DetachId(t, id0), k, added); }
    assert gap[..0] == [] && Run(d, gap[..0]) == d;
    assert Enabled(d, gap[0]);
    assert AddedAt(d, gap, key, added, 0);
    DropLosesExactly(s, t, id0, key, gap, key, added);
  }

  // ----- what a late drop returns

  /** The peer session that the second critical section returns. */
  ghost function Taken(s: State, t: Thread): Option<Peer>
    requires t in s.pending
  {
    if s.pending[t] in s.peers then Some(s.peers[s.pending[t]]) else None
  }

  ghost predicate Drops(s: State, op: Op, key: PeerKey) {
    op.DropPeer? && op.thread in s.pending && s.pending[op.thread] == key
  }

  /** The section puts a new peer session under `key`. */
  ghost predicate Creates(s: State, op: Op, key: PeerKey) {
    op.Insert? && op.key == key && key !in s.peers
  }

  /** No section of the run from position `i` on drops `key`. */
  ghost predicate UndroppedFrom(s: State, ops: seq<Op>, key: PeerKey, i: nat) {
    forall j :: i <= j < |ops| ==> !Drops(Run(s, ops[..j]), ops[j], key)
  }

  /** Section `i` of the run created the peer, and no later one dropped it. */
  ghost predicate CreatedAt(s: State, ops: seq<Op>, key: PeerKey, i: nat) {
    i < |ops| && Creates(Run(s, ops[..i]), ops[i], key) && UndroppedFrom(s, ops, key, i + 1)
  }

  ghost predicate Has(r: Registry, key: PeerKey, token: nat) { key in r && r[key].token == token }

  ghost predicate CreatedAndKept(s: State, ops: seq<Op>, key: PeerKey, token: nat) {
    exists i: nat :: CreatedAt(s, ops, key, i) && ops[i].token == token
  }

  /** Only a creation and a drop change which session object is under a peer. */
  lemma PeerAfterStep(s: State, op: Op, key: PeerKey, token: nat)
    ensures Has(Step(s, op).peers, key, token) <==>
            (Creates(s, op, key) && op.token == token) || (Has(s.peers, key, token) && !Drops(s, op, key))
  {
  }

  lemma UndroppedSnoc(s: State, ops: seq<Op>, key: PeerKey, i: nat)
    requires i < |ops|
    ensures var front, op := ops[..|ops| - 1], ops[|ops| - 1];
            UndroppedFrom(s, ops, key, i) <==> UndroppedFrom(s, front, key, i) && !Drops(Run(s, front), op, key)
  {
    var front := ops[..|ops| - 1];
    assert forall j :: 0 <= j < |front| ==> front[..j] == ops[..j] && front[j] == ops[j];
  }

  lemma CreatedAtSnoc(s: State, ops: seq<Op>, key: PeerKey, i: nat)
    requires i < |ops|
    ensures var front, op := ops[..|ops| - 1], ops[|ops| - 1];
            CreatedAt(s, ops, key, i) <==>
            if i == |ops| - 1 then Creates(Run(s, front), op, key)
            else CreatedAt(s, front, key, i) && !Drops(Run(s, front), op, key)
  {
    var front := ops[..|ops| - 1];
    if i < |ops| - 1 {
      UndroppedSnoc(s, ops, key, i + 1);
      assert front[..i] == ops[..i];
    }
  }

  lemma CreatedAndKeptSnoc(s: State, ops: seq<Op>, key: PeerKey, token: nat)
    requires ops != []
    ensures var front, op := ops[..|ops| - 1], ops[|ops| - 1];
            CreatedAndKept(s, ops, key, token) <==>
            || (Creates(Run(s, front), op, key) && op.token == token)
            || (CreatedAndKept(s, front, key, token) && !Drops(Run(s, front), op, key))
  {
    var n := |ops| - 1;
    if i: nat :| CreatedAt(s, ops, key, i) && ops[i].token == token {
      CreatedAtSnoc(s, ops, key, i);
      assert i < n ==> CreatedAt(s, ops[..n], key, i) && ops[..n][i].token == token;
    }
    CreatedAtSnoc(s, ops, key, n);
    if i: nat :| CreatedAt(s, ops[..n], key, i) && ops[..n][i].token == token {
      CreatedAtSnoc(s, ops, key, i);
      assert ops[i].token == token;
    }
  }

  /** A session object is under a peer after a run if and only if it was there and was not dropped, or
      the run created the peer with it and has not dropped it since. */
  lemma {:induction false} PeerAfterRun(s: State, ops: seq<Op>, key: PeerKey, token: nat)
    ensures Has(Run(s, ops).peers, key, token) <==>
            (Has(s.peers, key, token) && UndroppedFrom(s, ops, key, 0)) || CreatedAndKept(s, ops, key, token)
  {
    if ops != [] {
      var front, op := ops[..|ops| - 1], ops[|ops| - 1];
      PeerAfterRun(s, front, key, token);
      PeerAfterStep(Run(s, front), op, key, token);
      UndroppedSnoc(s, ops, key, 0);
      CreatedAndKeptSnoc(s, ops, key, token);
    }
  }

  /** A peer that is there can be created anew only after it has been dropped. */
  lemma CreatedMeansDropped(s: State, ops: seq<Op>, key: PeerKey, i: nat)
    requires key in s.peers && CreatedAt(s, ops, key, i)
    ensures !UndroppedFrom(s, ops, key, 0)
  {
    if UndroppedFrom(s, ops, key, 0) {
      assert UndroppedFrom(s, ops[..i], key, 0) by {
        assert forall j :: 0 <= j < i ==> ops[..i][..j] == ops[..j] && ops[..i][j] == ops[j];
      }
      PeerAfterRun(s, ops[..i], key, s.peers[key].token);
    }
  }

  /** A removal that emptied peer `key`, any sections of other threads, then its drop. The drop returns
      the session it emptied if and only if nobody dropped `key` in between; if somebody did, it
      returns the session created under `key` since the last drop, and nothing if and only if there is
      none. What it returns holds exactly the ids put there in between and not removed again. */
  lemma LateDropReturns(s: State, t: Thread, id0: SessionId, key: PeerKey, gap: seq<Op>)
    requires Inv(s) && t !in s.pending && Emptied(s.peers, id0) == Some(key)
    requires IsRun(Step(s, DetachId(t, id0)), gap) && ByOthers(gap, t)
    ensures var d := Step(s, DetachId(t, id0));
            var kept, made := UndroppedFrom(d, gap, key, 0), exists i: nat :: CreatedAt(d, gap, key, i);
            t in Run(d, gap).pending &&
            var r := Taken(Run(d, gap), t);
            && !(kept && made) && (r.None? <==> !kept && !made)
            && (kept ==> r.Some? && r.value.token == s.peers[key].token)
            && (forall i: nat :: CreatedAt(d, gap, key, i) ==> r.Some? && r.value.token == gap[i].token)
            && (r.Some? ==> forall id :: id in r.value.ids <==> AddedAndKept(d, gap, key, id))
  {
    var d := Step(s, DetachId(t, id0));
    InvStep(s, DetachId(t, id0));
    PendingStays(d, gap, t);
    assert Has(d.peers, key, s.peers[key].token);
    PeerAfterRun(d, gap, key, s.peers[key].token);
    forall i: nat | CreatedAt(d, gap, key, i)
      ensures !UndroppedFrom(d, gap, key, 0) && Has(Run(d, gap).peers, key, gap[i].token)
    {
      CreatedMeansDropped(d, gap, key, i);
      PeerAfterRun(d, gap, key, gap[i].token);
    }
    var r := Taken(Run(d, gap), t);
    if r.Some? {
      PeerAfterRun(d, gap, key, r.value.token);
      forall id ensures id in r.value.ids <==> AddedAndKept(d, gap, key, id) {
        HeldAfterRun(d, gap, key, id);
      }
    }
  }

  /** It does happen: while thread `t` is between its two sections, thread `u` empties and drops the
      same peer, and takes the session that `t` emptied. If nobody comes back to the peer, `t` gets
      nothing; if somebody opens it anew with session `token`, `t` takes that one away. */
  lemma LateDropTakesAnother(s: State, t: Thread, u: Thread, id0: SessionId, key: PeerKey,
                             a: SessionId, b: SessionId, token: nat)
    requires Inv(s) && t != u && t !in s.pending && u !in s.pending && Emptied(s.peers, id0) == Some(key) && a != b
    requires forall k :: !Holds(s.peers, k, a) && !Holds(s.peers, k, b)
    ensures var joined := Step(Step(s, DetachId(t, id0)), InsertPeer(key, a));
            var emptied := Step(joined, DetachId(u, a));
            var dropped := Step(emptied, DropPeer(u));
            var reopened := Step(dropped, Insert(key, token, b));
            && Enabled(Step(s, DetachId(t, id0)), InsertPeer(key, a)) && Enabled(joined, DetachId(u, a))
            && Enabled(emptied, DropPeer(u)) && Enabled(dropped, Insert(key, token, b))
            && Enabled(dropped, DropPeer(t)) && Enabled(reopened, DropPeer(t))
            && Taken(emptied, u) == Some(Peer(s.peers[key].token, {}))
            && Taken(dropped, t) == None && Taken(reopened, t) == Some(Peer(token, {b}))
  {
    var d := Step(s, DetachId(t, id0));
    var joined := Step(d, InsertPeer(key, a));
    var emptied := Step(joined, DetachId(u, a));
    var dropped := Step(emptied, DropPeer(u));
    InvStep(s, DetachId(t, id0));
    forall k ensures !Holds(d.peers, k, a) && !Holds(d.peers, k, b) {
      HeldAfterStep(s, DetachId(t, id0), k, a);
      HeldAfterStep(s, DetachId(t, id0), k, b);
    }
    InvStep(d, InsertPeer(key, a));
    InvStep(joined, DetachId(u, a));
    assert joined.peers[key].ids == {a};
    HolderUnique(joined.peers, a, key);
    assert {a} - {a} == {};
    forall k ensures !Holds(dropped.peers, k, b) {
      HeldAfterStep(d, InsertPeer(key, a), k, b);
      HeldAfterStep(joined, DetachId(u, a), k, b);
      HeldAfterStep(emptied, DropPeer(u), k, b);
    }
  }

  ghost function Bit(b: bool): nat { if b then 1 else 0 }

  /** How often the run put the session object under the peer. */
  ghost function Creations(s: State, ops: seq<Op>, key: PeerKey, token: nat): nat {
    if ops == [] then 0
    else
      var front, op := ops[..|ops| - 1], ops[|ops| - 1];
      Creations(s, front, key, token) + Bit(Creates(Run(s, front), op, key) && op.token == token)
  }

  /** How often a removal of the run returned the session object. */
  ghost function Returns(s: State, ops: seq<Op>, key: PeerKey, token: nat): nat {
    if ops == [] then 0
    else
      var front, op := ops[..|ops| - 1], ops[|ops| - 1];
      Returns(s, front, key, token) + Bit(Drops(Run(s, front), op, key) && Has(Run(s, front).peers, key, token))
  }

  /** In every interleaving, session objects are conserved: each one that was put under a peer is
      returned by exactly one removal, or is still there. */
  lemma {:induction false} SessionsConserved(s: State, ops: seq<Op>, key: PeerKey, token: nat)
    ensures Bit(Has(s.peers, key, token)) + Creations(s, ops, key, token) ==
            Returns(s, ops, key, token) + Bit(Has(Run(s, ops).peers, key, token))
  {
    if ops != [] {
      var front, op := ops[..|ops| - 1], ops[|ops| - 1];
      SessionsConserved(s, front, key, token);
      PeerAfterStep(Run(s, front), op, key, token);
    }
  }

  // ----- removals that act as one step

  /** Sections of other threads that put no session under `key`. */
  ghost predicate Avoids(ops: seq<Op>, key: PeerKey) {
    forall op :: op in ops && (op.Insert? || op.InsertPeer?) ==> op.key != key
  }

  /** An undisturbed removal is one step: both sections together do what `Remove` says. */
  lemma UndisturbedRemoval(s: State, t: Thread, id: SessionId)
    requires t !in s.pending
    ensures Step(Step(s, DetachId(t, id)), DropPeer(t)) == State(Remove(s.peers, id).0, s.pending)
  {
  }

  lemma DropCommutes(s: State, op: Op, t: Thread, key: PeerKey)
    requires UniqueIds(s.peers) && t in s.pending && s.pending[t] == key && (key in s.peers ==> s.peers[key].ids == {})
    requires ByOthers([op], t) && Avoids([op], key)
    ensures Step(Step(s, DropPeer(t)), op) == Step(Step(s, op), DropPeer(t))
    ensures key in Step(s, op).peers ==> Step(s, op).peers[key].ids == {}
  {
    assert op in [op];
    if op.DetachId? { DetachCommutes(s.peers, op.id, key); }
  }

  lemma DetachCommutes(r: Registry, id: SessionId, key: PeerKey)
    requires UniqueIds(r) && (key in r ==> r[key].ids == {})
    ensures Detach(r - {key}, id) == Detach(r, id) - {key} && Emptied(r - {key}, id) == Emptied(r, id)
    ensures key in Detach(r, id) ==> Detach(r, id)[key].ids == {}
  {
    var small := r - {key};
    assert forall k, x :: Holds(small, k, x) <==> Holds(r, k, x);
    var h := Holder(r, id);
    if h.Some? {
      HolderUnique(r, id, h.value);
      HolderUnique(small, id, h.value);
    }
  }

  /** If nobody adds a session to the emptied peer in the gap, the removal acts as one step: dropping
      the peer late gives the same state as dropping it at once. */
  lemma {:induction false} LateDropIsAtomic(s: State, t: Thread, gap: seq<Op>, key: PeerKey)
    requires Inv(s) && t in s.pending && s.pending[t] == key && (key in s.peers ==> s.peers[key].ids == {})
    requires IsRun(s, gap) && ByOthers(gap, t) && Avoids(gap, key)
    ensures Step(Run(s, gap), DropPeer(t)) == Run(Step(s, DropPeer(t)), gap)
    ensures key in Run(s, gap).peers ==> Run(s, gap).peers[key].ids == {}
  {
    if gap != [] {
      var front, op := gap[..|gap| - 1], gap[|gap| - 1];
      assert op in gap;
      LateDropIsAtomic(s, t, front, key);
      RunKeepsInv(s, front);
      PendingStays(s, front, t);
      DropCommutes(Run(s, front), op, t, key);
    }
  }

  // ----- the registry in place

  class Sessions {
    var peers: Registry

    constructor ()
      ensures peers == map[]
    {
      peers := map[];
    }

    method InsertSession(key: PeerKey, token: nat, id: SessionId)
      modifies this
      ensures peers == AddSession(old(peers), key, token, id)
    {
      if key !in peers { peers := peers[key := Peer(token, {})]; }
      assert {} + {id} == {id};
      peers := peers[key := Peer(peers[key].token, peers[key].ids + {id})];
    }

    /** Looks through the peers in whatever order the hash map yields. */
    method WouldRemovePeerBySessionId(id: SessionId) returns (r: bool)
      requires UniqueIds(peers)
      ensures r <==> WouldRemove(peers, id)
    {
      var todo := peers.Keys;
      while todo != {}
        invariant todo <= peers.Keys
        invariant forall k :: Holds(peers, k, id) ==> k in todo
      {
        var k :| k in todo;
        if id in peers[k].ids {
          assert Holds(peers, k, id);
          return |peers[k].ids| == 1;
        }
        todo := todo - {k};
      }
      return false;
    }

    /** The first critical section of a removal: which peer, if any, is left without sessions. */
    method DetachSession(id: SessionId) returns (emptied: Option<PeerKey>)
      requires UniqueIds(peers)
      modifies this
      ensures peers == Detach(old(peers), id) && emptied == Emptied(old(peers), id)
      ensures forall k, x :: Holds(peers, k, x) <==> Holds(old(peers), k, x) && x != id
    {
      emptied := None;
      var todo := peers.Keys;
      while todo != {}
        invariant todo <= peers.Keys && peers == old(peers)
        invariant forall k :: Holds(peers, k, id) ==> k in todo
        invariant emptied == None
      {
        var k :| k in todo;
        if id in peers[k].ids {
          HolderUnique(peers, id, k);
          var rest := peers[k].ids - {id};
          if rest == {} {
            emptied := Some(k);
            assert peers[k].ids == {id};
          }
          peers := peers[k := Peer(peers[k].token, rest)];
          break;
        }
        todo := todo - {k};
      }
      forall k, x ensures Holds(peers, k, x) <==> Holds(old(peers), k, x) && x != id {
        HeldAfterDetach(old(peers), id, k, x);
      }
    }

    /** The second critical section, whatever the registry has become by then. */
    method DropDetached(key: PeerKey) returns (r: Option<Peer>)
      modifies this
      ensures peers == old(peers) - {key} && r == if key in old(peers) then Some(old(peers)[key]) else None
    {
      if key !in peers { return None; }
      r := Some(peers[key]);
      peers := peers - {key};
    }

    /** Both critical sections with nobody in between. */
    method RemoveSessionBySessionId(id: SessionId) returns (r: Option<Peer>)
      requires UniqueIds(peers)
      modifies this
      ensures (peers, r) == Remove(old(peers), id)
    {
      var emptied := DetachSession(id);
      if emptied.None? { return None; }
      r := DropDetached(emptied.value);
    }
  }
}

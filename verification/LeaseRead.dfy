/** Reads without consensus: the leader lease, and read indexes confirmed by application progress. */
module LeaseReads {
  import opened Bytes

  // ---------------------------------------------------------------- the lease

  const MILLISECOND: int := 1000000

  /** Durations in nanoseconds. */
  datatype LeaseConfig = LeaseConfig(electionTimeout: nat, heartbeatTick: nat, clockDrift: nat)

  function EffectiveDrift(cfg: LeaseConfig): nat {
    if cfg.clockDrift == 0 then 500 * MILLISECOND else cfg.clockDrift
  }

  function Shorter(a: int, b: int): int {
    if a < b then a else b
  }

  /** Half an election timeout or three heartbeats, less the drift, but never below 50ms. */
  function LeaseDuration(cfg: LeaseConfig): int {
    var d := Shorter(cfg.electionTimeout / 2, cfg.heartbeatTick * 3) - EffectiveDrift(cfg);
    if d < 50 * MILLISECOND then 50 * MILLISECOND else d
  }

  /** The lease ends within half an election timeout exactly when the 50ms floor does. */
  lemma LeaseWithinElection(cfg: LeaseConfig)
    ensures LeaseDuration(cfg) <= cfg.electionTimeout / 2 <==> 50 * MILLISECOND <= cfg.electionTimeout / 2
  {
  }

  /** The lease lasts at least 50ms, and beyond that exactly as long as the allowed clock drift, half a
      second unless configured, still fits before half an election timeout and before three heartbeats. */
  lemma DurationExact(cfg: LeaseConfig, d: int)
    requires d > 50 * MILLISECOND
    ensures var drift := if cfg.clockDrift == 0 then 500 * MILLISECOND else cfg.clockDrift;
            && 50 * MILLISECOND <= LeaseDuration(cfg)
            && (d <= LeaseDuration(cfg) <==> d + drift <= cfg.electionTimeout / 2 && d + drift <= 3 * cfg.heartbeatTick)
  {
  }

  datatype LeaseEvent =
    | Renew(acks: int, nodes: int, enabled: bool, now: nat)
    | BecomeLeader
    | BecomeFollower

  datatype LeaseState = LeaseState(isLeader: bool, expire: int)

  /** A majority of the nodes has answered; a single node is its own majority. */
  predicate HasQuorum(acks: int, nodes: int) {
    nodes <= 1 || acks >= nodes / 2 + 1
  }

  /** Answers count as a quorum exactly when they are more than half, so any two quorums share a node. */
  lemma QuorumsMeet(nodes: set<nat>, a: set<nat>, b: set<nat>)
    requires a <= nodes && b <= nodes && |nodes| > 1
    ensures HasQuorum(|a|, |nodes|) <==> 2 * |a| > |nodes|
    ensures HasQuorum(|a|, |nodes|) && HasQuorum(|b|, |nodes|) ==> a * b != {}
  {
    Within(a + b, nodes);
  }

  lemma Within(x: set<nat>, y: set<nat>)
    requires x <= y
    ensures |x| <= |y|
  {
    assert y == x + (y - x);
  }

  predicate Renews(s: LeaseState, e: LeaseEvent) {
    e.Renew? && e.enabled && s.isLeader && HasQuorum(e.acks, e.nodes)
  }

  function LeaseStep(cfg: LeaseConfig, s: LeaseState, e: LeaseEvent): LeaseState {
    match e
    case Renew(_, _, _, now) => if Renews(s, e) then s.(expire := now + LeaseDuration(cfg)) else s
    case BecomeLeader => LeaseState(true, 0)
    case BecomeFollower => if s.isLeader then LeaseState(false, 0) else s
  }

  function LeaseRun(cfg: LeaseConfig, es: seq<LeaseEvent>): LeaseState {
    if es == [] then LeaseState(false, 0) else LeaseStep(cfg, LeaseRun(cfg, es[..|es| - 1]), es[|es| - 1])
  }

  predicate HasLease(s: LeaseState, now: nat) {
    s.isLeader && now < s.expire
  }

  /** The last change of role in the run made this node leader. */
  predicate Leading(es: seq<LeaseEvent>) {
    es != [] &&
    match es[|es| - 1]
    case Renew(_, _, _, _) => Leading(es[..|es| - 1])
    case BecomeLeader => true
    case BecomeFollower => false
  }

  /** When a quorum last confirmed this leadership. */
  function LastConfirmed(es: seq<LeaseEvent>): Option<nat> {
    if es == [] then None
    else
      var e := es[|es| - 1];
      if !e.Renew? then None
      else if e.enabled && HasQuorum(e.acks, e.nodes) && Leading(es[..|es| - 1]) then Some(e.now)
      else LastConfirmed(es[..|es| - 1])
  }

  lemma {:induction false} LeaseTracks(cfg: LeaseConfig, es: seq<LeaseEvent>)
    ensures var s := LeaseRun(cfg, es);
            && s.isLeader == Leading(es)
            && s.expire == (match LastConfirmed(es) case Some(t) => t + LeaseDuration(cfg) case None => 0)
            && (LastConfirmed(es).Some? ==> Leading(es))
  {
    hide LeaseDuration;
    if es != [] {
      LeaseTracks(cfg, es[..|es| - 1]);
    }
  }

  /**
   * Over every run, the lease is valid exactly when this node leads and a quorum has confirmed
   * this very leadership less than a lease duration ago.
   */
  lemma LeaseSafety(cfg: LeaseConfig, es: seq<LeaseEvent>, now: nat)
    ensures HasLease(LeaseRun(cfg, es), now) <==>
            Leading(es) && LastConfirmed(es).Some? && now < LastConfirmed(es).value + LeaseDuration(cfg)
  {
    hide LeaseDuration, LeaseRun;
    LeaseTracks(cfg, es);
  }

  class LeaseManager {
    const cfg: LeaseConfig
    var leaseExpireTime: int
    var isLeader: bool

    ghost function View(): LeaseState
      reads this
    {
      LeaseState(isLeader, leaseExpireTime)
    }

    constructor (cfg: LeaseConfig)
      ensures this.cfg == cfg && View() == LeaseRun(cfg, [])
    {
      this.cfg := cfg;
      leaseExpireTime, isLeader := 0, false;
    }

    method RenewLease(receivedAcks: int, totalNodes: int, enabled: bool, now: nat) returns (renewed: bool)
      modifies this
      ensures var e := Renew(receivedAcks, totalNodes, enabled, now);
              View() == LeaseStep(cfg, old(View()), e) && renewed == Renews(old(View()), e)
    {
      if !enabled {
        return false;
      }
      if !isLeader {
        return false;
      }
      var acks, nodes := receivedAcks, totalNodes;
      if nodes <= 1 {
        nodes := 1;
        acks := if acks > 1 then acks else 1;
      }
      if acks < nodes / 2 + 1 {
        return false;
      }
      var duration := Shorter(cfg.electionTimeout / 2, cfg.heartbeatTick * 3) - EffectiveDrift(cfg);
      if duration <= 0 {
        duration := 50 * MILLISECOND;
      } else if duration < 50 * MILLISECOND {
        duration := 50 * MILLISECOND;
      }
      leaseExpireTime := now + duration;
      renewed := true;
    }

    method HasValidLease(now: nat) returns (valid: bool)
      ensures valid == HasLease(View(), now)
    {
      if !isLeader {
        return false;
      }
      if now >= leaseExpireTime {
        return false;
      }
      valid := true;
    }

    method OnBecomeLeader()
      modifies this
      ensures View() == LeaseStep(cfg, old(View()), BecomeLeader)
    {
      isLeader := true;
      leaseExpireTime := 0;
    }

    method OnBecomeFollower()
      modifies this
      ensures View() == LeaseStep(cfg, old(View()), BecomeFollower)
    {
      var wasLeader := isLeader;
      isLeader := false;
      if wasLeader {
        leaseExpireTime := 0;
      }
    }
  }

  // ---------------------------------------------------------------- read indexes

  type RequestId = nat

  /** Requests that have looked at the applied index and not yet registered, registered ones, and answers. */
  datatype Reads = Reads(checked: map<RequestId, nat>, pending: map<RequestId, nat>, lastApplied: nat,
                         answers: map<RequestId, nat>)

  datatype ReadEvent =
    | Check(id: RequestId, index: nat)
    | Register(id: RequestId)
    | Notify(applied: nat)
    | Cancel(id: RequestId)

  function Confirmed(pending: map<RequestId, nat>, applied: nat): map<RequestId, nat> {
    map id | id in pending && pending[id] <= applied :: pending[id]
  }

  function Remaining(pending: map<RequestId, nat>, applied: nat): map<RequestId, nat> {
    map id | id in pending && pending[id] > applied :: pending[id]
  }

  function ReadStep(r: Reads, e: ReadEvent): Reads {
    match e
    case Check(id, index) =>
      if index <= r.lastApplied then r.(answers := r.answers[id := index])
      else r.(checked := r.checked[id := index])
    case Register(id) =>
      if id in r.checked then r.(checked := r.checked - {id}, pending := r.pending[id := r.checked[id]]) else r
    case Notify(applied) =>
      Reads(r.checked, Remaining(r.pending, applied), if applied > r.lastApplied then applied else r.lastApplied,
            r.answers + Confirmed(r.pending, applied))
    case Cancel(id) => r.(pending := r.pending - {id})
  }

  const NoReads := Reads(map[], map[], 0, map[])

  function ReadRun(es: seq<ReadEvent>): Reads {
    if es == [] then NoReads else ReadStep(ReadRun(es[..|es| - 1]), es[|es| - 1])
  }

  /** The greatest applied index notified so far. */
  function MaxNotified(es: seq<ReadEvent>): nat {
    if es == [] then 0
    else
      var m := MaxNotified(es[..|es| - 1]);
      if es[|es| - 1].Notify? && es[|es| - 1].applied > m then es[|es| - 1].applied else m
  }

  /** The indexes a request has asked for. */
  function Asked(es: seq<ReadEvent>, id: RequestId): set<nat> {
    if es == [] then {}
    else
      var e := es[|es| - 1];
      Asked(es[..|es| - 1], id) + (if e.Check? && e.id == id then {e.index} else {})
  }

  /** Every answer is an index its request asked for, and the state machine has reached it. */
  lemma {:induction false} AnswersApplied(es: seq<ReadEvent>, id: RequestId)
    ensures var r := ReadRun(es);
            && r.lastApplied == MaxNotified(es)
            && (id in r.answers ==> r.answers[id] <= MaxNotified(es) && r.answers[id] in Asked(es, id))
            && (id in r.checked ==> r.checked[id] in Asked(es, id))
            && (id in r.pending ==> r.pending[id] in Asked(es, id))
  {
    if es != [] {
      AnswersApplied(es[..|es| - 1], id);
    }
  }

  lemma ReadSnoc(es: seq<ReadEvent>, e: ReadEvent)
    ensures ReadRun(es + [e]) == ReadStep(ReadRun(es), e)
  {
    assert (es + [e])[..|es|] == es;
  }

  /** A request whose index has been reported is answered at once with that index; any other has to register,
      and then waits for the index it asked for, until it is answered or gives up. */
  lemma RequestPath(es: seq<ReadEvent>, id: RequestId, index: nat)
    ensures var r, r' := ReadRun(es), ReadRun(es + [Check(id, index)]);
            if index <= MaxNotified(es) then r' == r.(answers := r.answers[id := index])
            else r' == r.(checked := r.checked[id := index]) &&
                 var w := ReadRun(es + [Check(id, index)] + [Register(id)]);
                 && w == Reads(r.checked - {id}, r.pending[id := index], r.lastApplied, r.answers)
                 && ReadRun(es + [Check(id, index)] + [Register(id)] + [Cancel(id)]) == w.(pending := r.pending - {id})
  {
    hide ReadRun, Asked, MaxNotified, Confirmed, Remaining;
    AnswersApplied(es, id);
    ReadSnoc(es, Check(id, index));
    ReadSnoc(es + [Check(id, index)], Register(id));
    ReadSnoc(es + [Check(id, index)] + [Register(id)], Cancel(id));
    var r := ReadRun(es);
    assert r.checked[id := index] - {id} == r.checked - {id};
    assert r.pending[id := index] - {id} == r.pending - {id};
  }

  /** A report of progress answers every waiting request it covers with the index it waits for, and leaves
      the others waiting. */
  lemma NotifyAnswers(es: seq<ReadEvent>, applied: nat, id: RequestId)
    requires id in ReadRun(es).pending
    ensures var r, r' := ReadRun(es), ReadRun(es + [Notify(applied)]);
            if r.pending[id] <= applied then id !in r'.pending && id in r'.answers && r'.answers[id] == r.pending[id]
            else id in r'.pending && r'.pending[id] == r.pending[id]
  {
    assert (es + [Notify(applied)])[..|es|] == es;
  }

  /** A request waits although its index has been applied. */
  predicate Stuck(r: Reads, id: RequestId) {
    id in r.pending && r.pending[id] <= r.lastApplied
  }

  predicate NoneStuck(r: Reads) {
    forall id :: id in r.pending ==> !Stuck(r, id)
  }

  predicate KeepsMoving(r: Reads, e: ReadEvent) {
    match e
    case Register(id) => id in r.checked ==> r.checked[id] > r.lastApplied
    case _ => true
  }

  /** A step strands a request exactly when it registers one whose index was applied since it looked. */
  lemma StrandsExactly(r: Reads, e: ReadEvent)
    requires NoneStuck(r)
    ensures NoneStuck(ReadStep(r, e)) <==> KeepsMoving(r, e)
  {
    var r' := ReadStep(r, e);
    if e.Register? && e.id in r.checked {
      assert e.id in r'.pending && r'.pending[e.id] == r.checked[e.id];
      if KeepsMoving(r, e) {
        forall id | id in r'.pending
          ensures !Stuck(r', id)
        {
          assert id != e.id ==> id in r.pending && !Stuck(r, id);
        }
      } else {
        assert Stuck(r', e.id);
      }
    } else {
      forall id | id in r'.pending
        ensures !Stuck(r', id)
      {
        assert id in r.pending && !Stuck(r, id);
      }
    }
  }

  /** The look at the applied index and the registration are two steps: a report in between is missed. */
  lemma WakeUpMissed()
    ensures Stuck(ReadRun([Check(0, 5), Notify(5), Register(0)]), 0)
  {
    var es := [Check(0, 5), Notify(5), Register(0)];
    assert es[..2][..1] == es[..1] && es[..1][..0] == [];
    assert ReadRun(es[..1]) == ReadStep(NoReads, es[0]);
    assert ReadRun(es[..2]) == ReadStep(ReadRun(es[..1]), es[1]);
    assert ReadRun(es) == ReadStep(ReadRun(es[..2]), es[2]);
  }

  /** Walks the pending requests in any order, answers those that are ready and takes them out. */
  method Confirm(pending: map<RequestId, nat>, applied: nat)
    returns (rest: map<RequestId, nat>, confirmed: map<RequestId, nat>)
    ensures rest == Remaining(pending, applied) && confirmed == Confirmed(pending, applied)
  {
    rest, confirmed := pending, map[];
    var todo := pending.Keys;
    while todo != {}
      invariant todo <= pending.Keys
      invariant forall id :: id in rest <==> id in pending && (id in todo || pending[id] > applied)
      invariant forall id :: id in rest ==> rest[id] == pending[id]
      invariant forall id :: id in confirmed <==> id in pending && id !in todo && pending[id] <= applied
      invariant forall id :: id in confirmed ==> confirmed[id] == pending[id]
      decreases |todo|
    {
      var id :| id in todo;
      if pending[id] <= applied {
        confirmed := confirmed[id := pending[id]];
        rest := rest - {id};
      }
      todo := todo - {id};
    }
  }

  class ReadIndexManager {
    var pendingReads: map<RequestId, nat>
    var lastApplied: nat
    var answers: map<RequestId, nat>
    ghost var checked: map<RequestId, nat>

    ghost function View(): Reads
      reads this
    {
      Reads(checked, pendingReads, lastApplied, answers)
    }

    constructor ()
      ensures View() == NoReads
    {
      pendingReads, lastApplied, answers, checked := map[], 0, map[], map[];
    }

    /** First half of a request: answer at once if the index has been applied. */
    method CheckApplied(id: RequestId, readIndex: nat) returns (done: bool)
      modifies this
      ensures View() == ReadStep(old(View()), Check(id, readIndex))
      ensures done == (readIndex <= old(lastApplied))
    {
      if readIndex <= lastApplied {
        answers := answers[id := readIndex];
        return true;
      }
      checked := checked[id := readIndex];
      done := false;
    }

    /** Second half: wait among the pending requests. */
    method RegisterRead(id: RequestId, readIndex: nat)
      requires id in checked && checked[id] == readIndex
      modifies this
      ensures View() == ReadStep(old(View()), Register(id))
    {
      pendingReads := pendingReads[id := readIndex];
      checked := checked - {id};
    }

    method NotifyApplied(appliedIndex: nat)
      modifies this
      ensures View() == ReadStep(old(View()), Notify(appliedIndex))
    {
      if appliedIndex > lastApplied {
        lastApplied := appliedIndex;
      }
      var rest, confirmed := Confirm(pendingReads, appliedIndex);
      pendingReads := rest;
      answers := answers + confirmed;
    }

    method CancelRead(id: RequestId)
      modifies this
      ensures View() == ReadStep(old(View()), Cancel(id))
    {
      pendingReads := pendingReads - {id};
    }
  }
}

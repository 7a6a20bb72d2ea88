/**
 * The workers of a batch apply: one per shard, each taking its queue through small steps that
 * interleave freely with the steps of the others.
 */
module BatchPool {
  import opened Bytes
  import opened EtcdSpec
  import opened ShardedMaps

  /** A committed operation. What the clock says about lease expiry travels with a transaction. */
  datatype RaftOp =
    | Put(key: Key, value: seq<byte>, lease: int)
    | Delete(key: Key, end: Key)
    | Txn(compares: seq<Compare>, thenOps: seq<Op>, elseOps: seq<Op>, expired: set<int>)
    | LeaseGrant(id: int)
    | LeaseRevoke(id: int)
    | Unknown(tag: string)

  /** One operation applied alone. */
  function Apply(s: State, op: RaftOp): State {
    match op
    case Put(key, value, lease) => PutDirect(s, key, value, lease)
    case Delete(key, end) => DeleteDirect(s, key, end)
    case Txn(compares, thenOps, elseOps, expired) => TxnEffect(s, expired, compares, thenOps, elseOps)
    case LeaseGrant(id) => GrantDirect(s, id)
    case LeaseRevoke(id) => RevokeDirect(s, id)
    case Unknown(_) => s
  }

  function ApplyAll(s: State, ops: seq<RaftOp>): State {
    if ops == [] then s else Apply(ApplyAll(s, ops[..|ops| - 1]), ops[|ops| - 1])
  }

  lemma ApplySnoc(s: State, ops: seq<RaftOp>, op: RaftOp)
    ensures ApplyAll(s, ops + [op]) == Apply(ApplyAll(s, ops), op)
  {
    assert (ops + [op])[..|ops|] == ops;
  }

  lemma {:induction false} ApplyConcat(s: State, a: seq<RaftOp>, b: seq<RaftOp>)
    ensures ApplyAll(s, a + b) == ApplyAll(ApplyAll(s, a), b)
  {
    if b == [] {
      assert a + b == a;
    } else {
      var n := |b| - 1;
      ApplyConcat(s, a, b[..n]);
      assert a + b == (a + b[..n]) + [b[n]];
      ApplySnoc(s, a + b[..n], b[n]);
    }
  }

  // ---------------------------------------------------------------- queues by shard

  /** Puts and deletions of one key: what a shard worker can be given. */
  predicate Single(op: RaftOp) {
    op.Put? || (op.Delete? && op.end == [])
  }

  predicate AllSingle(ops: seq<RaftOp>) {
    forall i :: 0 <= i < |ops| ==> Single(ops[i])
  }

  function KeyOf(op: RaftOp): Key {
    if op.Put? || op.Delete? then op.key else []
  }

  function ShardOf(op: RaftOp): nat {
    GetShard(KeyOf(op))
  }

  /** The operations of one shard, in order. */
  function OfShard(ops: seq<RaftOp>, i: nat): seq<RaftOp> {
    if ops == [] then []
    else
      var op := ops[|ops| - 1];
      OfShard(ops[..|ops| - 1], i) + (if ShardOf(op) == i then [op] else [])
  }

  lemma OfShardSnoc(ops: seq<RaftOp>, op: RaftOp, i: nat)
    ensures OfShard(ops + [op], i) == OfShard(ops, i) + (if ShardOf(op) == i then [op] else [])
  {
    assert (ops + [op])[..|ops|] == ops;
  }

  lemma {:induction false} OfShardMember(ops: seq<RaftOp>, i: nat)
    ensures forall op :: op in OfShard(ops, i) <==> op in ops && ShardOf(op) == i
  {
    hide ShardOf;
    if ops != [] {
      var n := |ops| - 1;
      OfShardMember(ops[..n], i);
      assert ops == ops[..n] + [ops[n]];
    }
  }

  /** order keeps, shard by shard, the order of ops. */
  ghost predicate IsMerge(order: seq<RaftOp>, ops: seq<RaftOp>) {
    forall i :: 0 <= i < NUM_SHARDS ==> OfShard(order, i) == OfShard(ops, i)
  }

  lemma {:induction false} OfShardCount(ops: seq<RaftOp>, x: RaftOp)
    ensures multiset(OfShard(ops, ShardOf(x)))[x] == multiset(ops)[x]
  {
    hide ShardOf;
    if ops != [] {
      var n := |ops| - 1;
      OfShardCount(ops[..n], x);
      assert ops == ops[..n] + [ops[n]];
    }
  }

  /** A merge loses nothing, adds nothing and repeats nothing. */
  lemma MergeIsPermutation(order: seq<RaftOp>, ops: seq<RaftOp>)
    requires IsMerge(order, ops)
    ensures multiset(order) == multiset(ops)
  {
    hide OfShard;
    forall x
      ensures multiset(order)[x] == multiset(ops)[x]
    {
      OfShardCount(order, x);
      OfShardCount(ops, x);
      assert OfShard(order, ShardOf(x)) == OfShard(ops, ShardOf(x));
    }
  }

  lemma MergeIsSingle(order: seq<RaftOp>, ops: seq<RaftOp>)
    requires IsMerge(order, ops) && AllSingle(ops)
    ensures AllSingle(order)
  {
    hide OfShard, Single;
    MergeIsPermutation(order, ops);
    forall i | 0 <= i < |order|
      ensures Single(order[i])
    {
      assert order[i] in multiset(order);
      assert order[i] in ops;
    }
  }

  function OfKey(ops: seq<RaftOp>, k: Key): seq<RaftOp> {
    if ops == [] then []
    else
      var op := ops[|ops| - 1];
      OfKey(ops[..|ops| - 1], k) + (if KeyOf(op) == k then [op] else [])
  }

  lemma {:induction false} OfKeyWithinShard(ops: seq<RaftOp>, k: Key)
    ensures OfKey(OfShard(ops, GetShard(k)), k) == OfKey(ops, k)
  {
    hide GetShard;
    if ops != [] {
      var n := |ops| - 1;
      OfKeyWithinShard(ops[..n], k);
      var before := OfShard(ops[..n], GetShard(k));
      if ShardOf(ops[n]) == GetShard(k) {
        assert OfShard(ops, GetShard(k)) == before + [ops[n]];
        assert (before + [ops[n]])[..|before|] == before;
      } else {
        assert OfShard(ops, GetShard(k)) == before;
      }
    }
  }

  /** A merge keeps the order of the operations on every key. */
  lemma MergeKeepsKeyOrder(order: seq<RaftOp>, ops: seq<RaftOp>, k: Key)
    requires IsMerge(order, ops)
    ensures OfKey(order, k) == OfKey(ops, k)
  {
    hide OfKey, OfShard, GetShard;
    OfKeyWithinShard(order, k);
    OfKeyWithinShard(ops, k);
    assert OfShard(order, GetShard(k)) == OfShard(ops, GetShard(k));
  }

  // ---------------------------------------------------------------- workers

  /**
   * Where a worker stands with the head of its queue: not begun, key found (deletions),
   * revision drawn, or shard map updated with the lease table still to do.
   */
  datatype Stage = Ready | Found(lease: int) | Drawn(rev: int, lease: int) | Written(lease: int)

  datatype Worker = Worker(queue: seq<RaftOp>, stage: Stage)

  datatype Pool = Pool(state: State, workers: seq<Worker>)

  function Popped(w: Worker): Worker
    requires w.queue != []
  {
    Worker(w.queue[1..], Ready)
  }

  /** One indivisible step of a worker on the shared state. */
  function WorkerStep(s: State, w: Worker): (State, Worker) {
    if w.queue == [] then (s, w)
    else
      match w.queue[0]
      case Put(key, value, lease) =>
        (match w.stage
         case Ready => (s.(rev := s.rev + 1), w.(stage := Drawn(s.rev + 1, lease)))
         case Drawn(rev, _) =>
           (s.(kv := s.kv[key := PutKv(Lookup(s.kv, key), key, value, lease, rev)]), w.(stage := Written(lease)))
         case Written(l) => (s.(leases := Attach(s.leases, l, key)), Popped(w))
         case Found(_) => (s, w))
      case Delete(key, _) =>
        (match w.stage
         case Ready => if key in s.kv then (s, w.(stage := Found(s.kv[key].lease))) else (s, Popped(w))
         case Found(l) => (s.(rev := s.rev + 1), w.(stage := Drawn(s.rev + 1, l)))
         case Drawn(_, l) => (s.(kv := s.kv - {key}), w.(stage := Written(l)))
         case Written(l) => (s.(leases := Detach(s.leases, l, key)), Popped(w)))
      case _ => (s, w)
  }

  function PoolStep(p: Pool, i: nat): Pool
    requires i < |p.workers|
  {
    var (s, w) := WorkerStep(p.state, p.workers[i]);
    Pool(s, p.workers[i := w])
  }

  /** The operation that takes effect in the order of record with this step, if any. */
  function TakesEffect(s: State, w: Worker): seq<RaftOp> {
    if w.queue == [] then []
    else
      var op := w.queue[0];
      if (op.Put? && w.stage.Ready?) || (op.Delete? && (w.stage.Found? || (w.stage.Ready? && op.key !in s.kv)))
      then [op] else []
  }

  // ---------------------------------------------------------------- the order of record

  predicate InFlight(w: Worker, k: Key) {
    w.queue != [] && KeyOf(w.queue[0]) == k && (w.stage.Drawn? || w.stage.Written?)
  }

  /** What key k will hold once the worker of its shard has finished what it began. */
  function PendingKv(s: State, w: Worker, k: Key): Option<KeyValue> {
    if InFlight(w, k) && w.stage.Drawn? then
      match w.queue[0]
      case Put(_, value, lease) => Some(PutKv(Lookup(s.kv, k), k, value, lease, w.stage.rev))
      case _ => None
    else Lookup(s.kv, k)
  }

  /** Whether key k will be attached to lease l once that worker has finished. */
  predicate PendingLease(s: State, w: Worker, l: int, k: Key)
    requires l in s.leases
  {
    if InFlight(w, k) && l == w.stage.lease && l != 0 then w.queue[0].Put? else k in s.leases[l]
  }

  ghost predicate WorkerOk(s: State, w: Worker, i: nat) {
    && AllSingle(w.queue)
    && (forall j :: 0 <= j < |w.queue| ==> ShardOf(w.queue[j]) == i)
    && (w.queue == [] ==> w.stage == Ready)
    && (w.queue != [] && w.queue[0].Put? ==>
          !w.stage.Found? && (w.stage.Ready? || w.stage.lease == w.queue[0].lease))
    && (w.queue != [] && w.queue[0].Delete? && (w.stage.Found? || w.stage.Drawn?) ==>
          w.queue[0].key in s.kv && s.kv[w.queue[0].key].lease == w.stage.lease)
  }

  ghost predicate KvAgrees(t: State, s: State, w: Worker, k: Key) {
    Lookup(t.kv, k) == PendingKv(s, w, k)
  }

  ghost predicate LeaseAgrees(t: State, s: State, w: Worker, k: Key)
    requires t.leases.Keys == s.leases.Keys
  {
    forall l :: l in t.leases ==> (k in t.leases[l] <==> PendingLease(s, w, l, k))
  }

  /** t is what p's state becomes once every worker has finished what it began. */
  ghost predicate Agrees(t: State, p: Pool) {
    && |p.workers| == NUM_SHARDS
    && t.rev == p.state.rev
    && t.leases.Keys == p.state.leases.Keys
    && (forall i :: 0 <= i < NUM_SHARDS ==> WorkerOk(p.state, p.workers[i], i))
    && (forall k :: KvAgrees(t, p.state, p.workers[GetShard(k)], k))
    && (forall k :: LeaseAgrees(t, p.state, p.workers[GetShard(k)], k))
  }

  lemma AdvanceOne(t: State, op: RaftOp)
    ensures ApplyAll(t, [op]) == Apply(t, op)
  {
    assert [op][..0] == [];
  }

  /** What one operation on one key does, without the machinery of ranges. */
  function SingleEffect(t: State, op: RaftOp): State
    requires Single(op)
  {
    if op.Put? then PutDirect(t, op.key, op.value, op.lease)
    else Drop(t, op.key).(rev := t.rev + (if op.key in t.kv then 1 else 0))
  }

  lemma AdvanceSingle(t: State, op: RaftOp)
    requires Single(op)
    ensures ApplyAll(t, [op]) == SingleEffect(t, op)
  {
    AdvanceOne(t, op);
    if op.Delete? {
      DeleteOneKey(t, op.key);
    }
  }

  lemma AdvanceBy(t: State, s: State, w: Worker)
    requires w.queue != [] && Single(w.queue[0])
    ensures ApplyAll(t, TakesEffect(s, w)) == if TakesEffect(s, w) == [] then t else SingleEffect(t, w.queue[0])
  {
    hide SingleEffect;
    if TakesEffect(s, w) != [] {
      AdvanceSingle(t, w.queue[0]);
    }
  }

  // The step at the worker's own key.

  lemma StepWorkerOk(s: State, w: Worker, i: nat)
    requires WorkerOk(s, w, i) && w.queue != []
    ensures WorkerOk(WorkerStep(s, w).0, WorkerStep(s, w).1, i)
  {
    hide ShardOf, Attach, Detach, PutKv;
  }

  lemma StepRev(t: State, s: State, w: Worker, i: nat)
    requires WorkerOk(s, w, i) && w.queue != [] && t.rev == s.rev && t.leases.Keys == s.leases.Keys
    requires KvAgrees(t, s, w, KeyOf(w.queue[0]))
    ensures var s' := WorkerStep(s, w).0;
            var t' := ApplyAll(t, TakesEffect(s, w));
            t'.rev == s'.rev && t'.leases.Keys == s'.leases.Keys == s.leases.Keys
  {
    hide ShardOf, ApplyAll, PutKv;
    AdvanceBy(t, s, w);
  }

  lemma StepKv(t: State, s: State, w: Worker, i: nat)
    requires WorkerOk(s, w, i) && w.queue != [] && t.rev == s.rev
    requires KvAgrees(t, s, w, KeyOf(w.queue[0]))
    ensures KvAgrees(ApplyAll(t, TakesEffect(s, w)), WorkerStep(s, w).0, WorkerStep(s, w).1, KeyOf(w.queue[0]))
  {
    hide ShardOf, ApplyAll, PutKv, Attach, Detach;
    AdvanceBy(t, s, w);
  }

  lemma StepLease(t: State, s: State, w: Worker, i: nat)
    requires WorkerOk(s, w, i) && w.queue != [] && t.rev == s.rev && t.leases.Keys == s.leases.Keys
    requires KvAgrees(t, s, w, KeyOf(w.queue[0])) && LeaseAgrees(t, s, w, KeyOf(w.queue[0]))
    requires ApplyAll(t, TakesEffect(s, w)).leases.Keys == WorkerStep(s, w).0.leases.Keys
    ensures LeaseAgrees(ApplyAll(t, TakesEffect(s, w)), WorkerStep(s, w).0, WorkerStep(s, w).1, KeyOf(w.queue[0]))
  {
    hide ShardOf, ApplyAll, PutKv;
    AdvanceBy(t, s, w);
  }

  // The step at every other key.

  ghost predicate SameAt(s: State, t: State, k: Key) {
    && Lookup(s.kv, k) == Lookup(t.kv, k)
    && s.leases.Keys == t.leases.Keys
    && forall l :: l in s.leases ==> (k in s.leases[l] <==> k in t.leases[l])
  }

  lemma StepFrame(s: State, w: Worker, k: Key)
    requires w.queue != [] ==> k != KeyOf(w.queue[0])
    ensures SameAt(s, WorkerStep(s, w).0, k)
  {
  }

  lemma AdvanceFrame(t: State, s: State, w: Worker, k: Key)
    requires w.queue != [] && Single(w.queue[0]) && k != KeyOf(w.queue[0])
    ensures SameAt(t, ApplyAll(t, TakesEffect(s, w)), k)
  {
    hide ApplyAll, TakesEffect, PutKv;
    AdvanceBy(t, s, w);
  }

  lemma SameKv(t: State, t': State, s: State, s': State, w: Worker, w': Worker, k: Key)
    requires SameAt(t, t', k) && SameAt(s, s', k) && t.leases.Keys == s.leases.Keys
    requires w' == w || (!InFlight(w, k) && !InFlight(w', k))
    requires KvAgrees(t, s, w, k) && LeaseAgrees(t, s, w, k)
    ensures KvAgrees(t', s', w', k) && LeaseAgrees(t', s', w', k)
  {
    hide InFlight, PutKv;
  }

  lemma SameWorkerOk(s: State, s': State, w: Worker, i: nat)
    requires WorkerOk(s, w, i) && (w.queue != [] ==> SameAt(s, s', KeyOf(w.queue[0])))
    ensures WorkerOk(s', w, i)
  {
    hide ShardOf;
  }

  lemma StepInFlight(s: State, w: Worker, k: Key)
    requires w.queue != [] && k != KeyOf(w.queue[0])
    ensures !InFlight(w, k) && !InFlight(WorkerStep(s, w).1, k)
  {
  }

  /** Every step keeps the agreement with the order of record. */
  lemma StepAgrees(t: State, p: Pool, i: nat)
    requires Agrees(t, p) && i < NUM_SHARDS
    ensures Agrees(ApplyAll(t, TakesEffect(p.state, p.workers[i])), PoolStep(p, i))
  {
    hide GetShard, WorkerOk, KvAgrees, LeaseAgrees, ApplyAll, TakesEffect, WorkerStep, SameAt, InFlight;
    var s, w := p.state, p.workers[i];
    var (s', w') := WorkerStep(s, w);
    var t' := ApplyAll(t, TakesEffect(s, w));
    var p' := PoolStep(p, i);
    if w.queue == [] {
      IdleStep(t, s, w);
      assert p' == p;
    } else {
      HeadFacts(s, w, i);
      var own := KeyOf(w.queue[0]);
      assert KvAgrees(t, s, p.workers[GetShard(own)], own) && LeaseAgrees(t, s, p.workers[GetShard(own)], own);
      StepRev(t, s, w, i);
      forall k
        ensures KvAgrees(t', s', p'.workers[GetShard(k)], k) && LeaseAgrees(t', s', p'.workers[GetShard(k)], k)
      {
        if k == own {
          StepKv(t, s, w, i);
          StepLease(t, s, w, i);
        } else {
          StepFrame(s, w, k);
          AdvanceFrame(t, s, w, k);
          StepInFlight(s, w, k);
          SameKv(t, t', s, s', p.workers[GetShard(k)], p'.workers[GetShard(k)], k);
        }
      }
      forall j | 0 <= j < NUM_SHARDS
        ensures WorkerOk(s', p'.workers[j], j)
      {
        if j == i {
          StepWorkerOk(s, w, i);
        } else {
          var v := p.workers[j];
          if v.queue != [] {
            HeadFacts(s, v, j);
            StepFrame(s, w, KeyOf(v.queue[0]));
          }
          SameWorkerOk(s, s', v, j);
        }
      }
    }
  }

  lemma IdleStep(t: State, s: State, w: Worker)
    requires w.queue == []
    ensures WorkerStep(s, w) == (s, w) && ApplyAll(t, TakesEffect(s, w)) == t
  {
  }

  lemma HeadFacts(s: State, w: Worker, i: nat)
    requires WorkerOk(s, w, i) && w.queue != []
    ensures Single(w.queue[0]) && GetShard(KeyOf(w.queue[0])) == i
  {
    hide GetShard;
    assert ShardOf(w.queue[0]) == i;
  }

  // ---------------------------------------------------------------- runs of a pool

  function Start(s: State, ops: seq<RaftOp>): Pool {
    Pool(s, seq(NUM_SHARDS, i requires 0 <= i < NUM_SHARDS => Worker(OfShard(ops, i), Ready)))
  }

  /** A schedule names the worker that moves next, step by step. */
  predicate IsSchedule(schedule: seq<nat>) {
    forall i :: 0 <= i < |schedule| ==> schedule[i] < NUM_SHARDS
  }

  function RunPool(p: Pool, schedule: seq<nat>): (r: Pool)
    requires |p.workers| == NUM_SHARDS && IsSchedule(schedule)
    ensures |r.workers| == NUM_SHARDS
  {
    if schedule == [] then p
    else PoolStep(RunPool(p, schedule[..|schedule| - 1]), schedule[|schedule| - 1])
  }

  /** The order in which the operations of a run take effect. */
  function Record(p: Pool, schedule: seq<nat>): seq<RaftOp>
    requires |p.workers| == NUM_SHARDS && IsSchedule(schedule)
  {
    if schedule == [] then []
    else
      var n := |schedule| - 1;
      var q := RunPool(p, schedule[..n]);
      Record(p, schedule[..n]) + TakesEffect(q.state, q.workers[schedule[n]])
  }

  predicate Done(p: Pool) {
    forall i :: 0 <= i < |p.workers| ==> p.workers[i].queue == []
  }

  lemma StartAgrees(s: State, ops: seq<RaftOp>)
    requires AllSingle(ops)
    ensures Agrees(s, Start(s, ops))
  {
    hide GetShard, Single;
    var p := Start(s, ops);
    forall i | 0 <= i < NUM_SHARDS
      ensures WorkerOk(s, p.workers[i], i)
    {
      OfShardMember(ops, i);
      var queue := OfShard(ops, i);
      forall j | 0 <= j < |queue|
        ensures Single(queue[j]) && ShardOf(queue[j]) == i
      {
        assert queue[j] in queue;
      }
    }
  }

  /** What of a queue has not taken effect yet. */
  function Waiting(w: Worker): seq<RaftOp> {
    if w.queue != [] && (w.stage.Drawn? || w.stage.Written?) then w.queue[1..] else w.queue
  }

  lemma WaitingStep(s: State, w: Worker, i: nat)
    requires WorkerOk(s, w, i)
    ensures TakesEffect(s, w) + Waiting(WorkerStep(s, w).1) == Waiting(w)
  {
    hide ShardOf;
    if w.queue != [] {
      assert [w.queue[0]] + w.queue[1..] == w.queue;
    }
  }

  ghost predicate Accounts(order: seq<RaftOp>, p: Pool, ops: seq<RaftOp>)
    requires |p.workers| == NUM_SHARDS
  {
    forall i :: 0 <= i < NUM_SHARDS ==> OfShard(order, i) + Waiting(p.workers[i]) == OfShard(ops, i)
  }

  lemma EffectShard(s: State, w: Worker, i: nat, order: seq<RaftOp>, j: nat)
    requires WorkerOk(s, w, i)
    ensures OfShard(order + TakesEffect(s, w), j) == OfShard(order, j) + (if j == i then TakesEffect(s, w) else [])
  {
    hide ShardOf, OfShard;
    var e := TakesEffect(s, w);
    if e == [] {
      assert order + e == order;
    } else {
      assert ShardOf(w.queue[0]) == i;
      OfShardSnoc(order, w.queue[0], j);
    }
  }

  lemma StepAccounts(t: State, p: Pool, i: nat, order: seq<RaftOp>, ops: seq<RaftOp>)
    requires Agrees(t, p) && i < NUM_SHARDS && Accounts(order, p, ops)
    ensures Accounts(order + TakesEffect(p.state, p.workers[i]), PoolStep(p, i), ops)
  {
    hide WorkerOk, OfShard, TakesEffect, Waiting, WorkerStep, KvAgrees, LeaseAgrees, GetShard;
    var s, w := p.state, p.workers[i];
    var e := TakesEffect(s, w);
    var p' := PoolStep(p, i);
    assert WorkerOk(s, w, i);
    WaitingStep(s, w, i);
    forall j | 0 <= j < NUM_SHARDS
      ensures OfShard(order + e, j) + Waiting(p'.workers[j]) == OfShard(ops, j)
    {
      EffectShard(s, w, i, order, j);
      assert OfShard(order, j) + Waiting(p.workers[j]) == OfShard(ops, j);
      if j == i {
        assert (OfShard(order, j) + e) + Waiting(p'.workers[j]) == OfShard(order, j) + (e + Waiting(p'.workers[j]));
      }
    }
  }

  lemma DoneIsMerge(t: State, p: Pool, order: seq<RaftOp>, ops: seq<RaftOp>)
    requires Agrees(t, p) && Accounts(order, p, ops) && Done(p)
    ensures p.state == t && IsMerge(order, ops)
  {
    hide GetShard, OfShard, WorkerOk;
    DoneState(t, p);
    forall i | 0 <= i < NUM_SHARDS
      ensures OfShard(order, i) == OfShard(ops, i)
    {
      assert OfShard(order, i) + Waiting(p.workers[i]) == OfShard(ops, i);
    }
  }

  lemma DoneState(t: State, p: Pool)
    requires Agrees(t, p) && Done(p)
    ensures p.state == t
  {
    hide GetShard, WorkerOk;
    var s := p.state;
    forall k
      ensures Lookup(t.kv, k) == Lookup(s.kv, k)
    {
      assert KvAgrees(t, s, p.workers[GetShard(k)], k);
    }
    forall k
      ensures k in t.kv <==> k in s.kv
      ensures k in t.kv ==> t.kv[k] == s.kv[k]
    {
      assert Lookup(t.kv, k) == Lookup(s.kv, k);
    }
    assert t.kv == s.kv;
    forall l | l in t.leases
      ensures t.leases[l] == s.leases[l]
    {
      forall k
        ensures k in t.leases[l] <==> k in s.leases[l]
      {
        assert LeaseAgrees(t, s, p.workers[GetShard(k)], k);
      }
    }
    assert t.leases == s.leases;
  }

  /** Along every schedule the order of record explains the state so far. */
  lemma {:induction false} RunAgrees(s: State, ops: seq<RaftOp>, schedule: seq<nat>)
    requires AllSingle(ops) && IsSchedule(schedule)
    ensures Agrees(ApplyAll(s, Record(Start(s, ops), schedule)), RunPool(Start(s, ops), schedule))
    ensures Accounts(Record(Start(s, ops), schedule), RunPool(Start(s, ops), schedule), ops)
  {
    hide Agrees, Accounts, PoolStep, TakesEffect, OfShard, ApplyAll, Single;
    var p := Start(s, ops);
    if schedule == [] {
      StartAgrees(s, ops);
      StartAccounts(s, ops);
      EmptyRecord(s, p);
    } else {
      var n := |schedule| - 1;
      RunAgrees(s, ops, schedule[..n]);
      var q := RunPool(p, schedule[..n]);
      var order := Record(p, schedule[..n]);
      var e := TakesEffect(q.state, q.workers[schedule[n]]);
      StepAgrees(ApplyAll(s, order), q, schedule[n]);
      StepAccounts(ApplyAll(s, order), q, schedule[n], order, ops);
      ApplyConcat(s, order, e);
    }
  }

  lemma EmptyRecord(s: State, p: Pool)
    requires |p.workers| == NUM_SHARDS
    ensures ApplyAll(s, Record(p, [])) == s
  {
  }

  lemma StartAccounts(s: State, ops: seq<RaftOp>)
    ensures Accounts([], Start(s, ops), ops)
  {
    forall i | 0 <= i < NUM_SHARDS
      ensures OfShard([], i) + Waiting(Start(s, ops).workers[i]) == OfShard(ops, i)
    {
      assert OfShard([], i) == [];
    }
  }

  /**
   * Every finished run of the workers, whatever the interleaving, leaves the state that the
   * operations applied one at a time would leave, in an order that keeps each shard's own.
   */
  lemma Linearizable(s: State, ops: seq<RaftOp>, schedule: seq<nat>)
    requires AllSingle(ops) && IsSchedule(schedule)
    requires Done(RunPool(Start(s, ops), schedule))
    ensures var order := Record(Start(s, ops), schedule);
            && RunPool(Start(s, ops), schedule).state == ApplyAll(s, order)
            && IsMerge(order, ops)
            && multiset(order) == multiset(ops)
  {
    hide Agrees, Accounts, Done, ApplyAll, Record, RunPool, IsMerge;
    RunAgrees(s, ops, schedule);
    var order := Record(Start(s, ops), schedule);
    DoneIsMerge(ApplyAll(s, order), RunPool(Start(s, ops), schedule), order, ops);
    MergeIsPermutation(order, ops);
  }
}

/** What the order of record can be, and how much the outcome depends on it. */
module BatchOrders {
  import opened Bytes
  import opened EtcdSpec
  import opened ShardedMaps
  import opened BatchPool

  // ---------------------------------------------------------------- every merge happens

  function Repeat(i: nat, n: nat): seq<nat> {
    seq(n, _ => i)
  }

  /** How many steps a worker needs for an operation it starts in state s. */
  function Burst(s: State, op: RaftOp): nat {
    if op.Put? then 3 else if KeyOf(op) in s.kv then 4 else 1
  }

  /** A schedule that lets the workers take effect in the given order, one operation at a time. */
  function ScheduleFor(s: State, order: seq<RaftOp>): (schedule: seq<nat>)
    ensures IsSchedule(schedule)
  {
    if order == [] then []
    else
      var n := |order| - 1;
      ScheduleFor(s, order[..n]) + Repeat(ShardOf(order[n]), Burst(ApplyAll(s, order[..n]), order[n]))
  }

  lemma RunSnoc(p: Pool, schedule: seq<nat>, i: nat)
    requires |p.workers| == NUM_SHARDS && IsSchedule(schedule) && i < NUM_SHARDS
    ensures IsSchedule(schedule + [i])
    ensures var q := RunPool(p, schedule);
            && RunPool(p, schedule + [i]) == PoolStep(q, i)
            && Record(p, schedule + [i]) == Record(p, schedule) + TakesEffect(q.state, q.workers[i])
  {
    hide PoolStep, TakesEffect;
    assert (schedule + [i])[..|schedule|] == schedule;
  }

  /** An operation run from start to end with no other worker moving. */
  lemma WorkerBurst(s: State, w: Worker)
    requires w.queue != [] && w.stage == Ready && Single(w.queue[0])
    ensures var op := w.queue[0];
            var (s1, w1) := WorkerStep(s, w);
            var (s2, w2) := WorkerStep(s1, w1);
            var (s3, w3) := WorkerStep(s2, w2);
            var (s4, w4) := WorkerStep(s3, w3);
            && (Burst(s, op) == 1 ==> (s1, w1) == (SingleEffect(s, op), Popped(w)) && TakesEffect(s, w) == [op])
            && (Burst(s, op) == 3 ==>
                  && (s3, w3) == (SingleEffect(s, op), Popped(w))
                  && TakesEffect(s, w) == [op] && TakesEffect(s1, w1) == [] && TakesEffect(s2, w2) == [])
            && (Burst(s, op) == 4 ==>
                  && (s4, w4) == (SingleEffect(s, op), Popped(w))
                  && TakesEffect(s, w) == [] && TakesEffect(s1, w1) == [op]
                  && TakesEffect(s2, w2) == [] && TakesEffect(s3, w3) == [])
  {
    hide PutKv, Attach, Detach;
  }

  lemma RunBurst(p: Pool, schedule: seq<nat>, op: RaftOp)
    requires |p.workers| == NUM_SHARDS && IsSchedule(schedule) && Single(op)
    requires var w := RunPool(p, schedule).workers[ShardOf(op)];
             w.stage == Ready && w.queue != [] && w.queue[0] == op
    ensures var q := RunPool(p, schedule);
            var i := ShardOf(op);
            var longer := schedule + Repeat(i, Burst(q.state, op));
            && IsSchedule(longer)
            && RunPool(p, longer) == Pool(SingleEffect(q.state, op), q.workers[i := Popped(q.workers[i])])
            && Record(p, longer) == Record(p, schedule) + [op]
  {
    hide ShardOf, RunPool, Record, WorkerStep, TakesEffect, SingleEffect, IsSchedule, Burst;
    var q := RunPool(p, schedule);
    var i := ShardOf(op);
    ShardBound(op);
    var n := Burst(q.state, op);
    BurstSizes(q.state, op);
    WorkerBurst(q.state, q.workers[i]);
    RunSnoc(p, schedule, i);
    if n == 1 {
      assert schedule + Repeat(i, 1) == schedule + [i];
    } else {
      RunSnoc(p, schedule + [i], i);
      RunSnoc(p, schedule + [i] + [i], i);
      if n == 3 {
        assert schedule + Repeat(i, 3) == schedule + [i] + [i] + [i];
      } else {
        RunSnoc(p, schedule + [i] + [i] + [i], i);
        assert schedule + Repeat(i, 4) == schedule + [i] + [i] + [i] + [i];
      }
    }
  }

  lemma ShardBound(op: RaftOp)
    ensures ShardOf(op) < NUM_SHARDS
  {
  }

  lemma BurstSizes(s: State, op: RaftOp)
    ensures Burst(s, op) == 1 || Burst(s, op) == 3 || Burst(s, op) == 4
  {
  }

  ghost predicate IsMergePrefix(order: seq<RaftOp>, ops: seq<RaftOp>) {
    forall i :: 0 <= i < NUM_SHARDS ==> OfShard(order, i) <= OfShard(ops, i)
  }

  /** The pool between two bursts: every worker ready, its queue what is left of its shard. */
  ghost predicate Between(p: Pool, t: State, order: seq<RaftOp>, ops: seq<RaftOp>)
    requires |p.workers| == NUM_SHARDS && IsMergePrefix(order, ops)
  {
    p.state == t &&
    forall i :: 0 <= i < NUM_SHARDS ==> p.workers[i] == Worker(OfShard(ops, i)[|OfShard(order, i)|..], Ready)
  }

  lemma PrefixOfPrefix(order: seq<RaftOp>, op: RaftOp, ops: seq<RaftOp>)
    requires IsMergePrefix(order + [op], ops)
    ensures IsMergePrefix(order, ops)
    ensures var i := ShardOf(op);
            && |OfShard(order, i)| < |OfShard(ops, i)|
            && OfShard(ops, i)[|OfShard(order, i)|] == op
  {
    hide OfShard, ShardOf;
    forall i | 0 <= i < NUM_SHARDS
      ensures OfShard(order, i) <= OfShard(ops, i)
    {
      OfShardSnoc(order, op, i);
      assert OfShard(order + [op], i) <= OfShard(ops, i);
    }
    ShardBound(op);
    OfShardSnoc(order, op, ShardOf(op));
    assert OfShard(order + [op], ShardOf(op)) <= OfShard(ops, ShardOf(op));
    assert OfShard(order + [op], ShardOf(op))[|OfShard(order, ShardOf(op))|] == op;
  }

  lemma BetweenNext(q: Pool, r: Pool, t: State, order: seq<RaftOp>, op: RaftOp, ops: seq<RaftOp>)
    requires |q.workers| == NUM_SHARDS && IsMergePrefix(order, ops) && IsMergePrefix(order + [op], ops)
    requires Between(q, t, order, ops)
    requires ShardOf(op) < NUM_SHARDS && q.workers[ShardOf(op)].queue != []
    requires r == Pool(Apply(t, op), q.workers[ShardOf(op) := Popped(q.workers[ShardOf(op)])])
    ensures Between(r, Apply(t, op), order + [op], ops)
  {
    hide OfShard, ShardOf, Apply;
    forall i | 0 <= i < NUM_SHARDS
      ensures r.workers[i] == Worker(OfShard(ops, i)[|OfShard(order + [op], i)|..], Ready)
    {
      OfShardSnoc(order, op, i);
      assert q.workers[i] == Worker(OfShard(ops, i)[|OfShard(order, i)|..], Ready);
    }
  }

  lemma SingleIsApply(t: State, op: RaftOp)
    requires Single(op)
    ensures SingleEffect(t, op) == Apply(t, op)
  {
    if op.Delete? {
      DeleteOneKey(t, op.key);
    }
  }

  lemma {:induction false} PrefixHappens(s: State, ops: seq<RaftOp>, order: seq<RaftOp>)
    requires AllSingle(order) && IsMergePrefix(order, ops)
    ensures var p := Start(s, ops);
            && Between(RunPool(p, ScheduleFor(s, order)), ApplyAll(s, order), order, ops)
            && Record(p, ScheduleFor(s, order)) == order
  {
    hide OfShard, ShardOf, RunPool, Record, Single, SingleEffect, Burst, Between, IsMergePrefix, Apply;
    var p := Start(s, ops);
    if order == [] {
      NothingRun(s, ops);
    } else {
      var n := |order| - 1;
      var pre, op := order[..n], order[n];
      assert order == pre + [op];
      PrefixOfPrefix(pre, op, ops);
      PrefixHappens(s, ops, pre);
      var schedule := ScheduleFor(s, pre);
      var q := RunPool(p, schedule);
      ShardBound(op);
      BetweenAt(q, ApplyAll(s, pre), pre, ops, ShardOf(op));
      RunBurst(p, schedule, op);
      SingleIsApply(q.state, op);
      ApplySnoc(s, pre, op);
      BetweenNext(q, RunPool(p, ScheduleFor(s, order)), ApplyAll(s, pre), pre, op, ops);
    }
  }

  lemma BetweenAt(q: Pool, t: State, order: seq<RaftOp>, ops: seq<RaftOp>, i: nat)
    requires |q.workers| == NUM_SHARDS && IsMergePrefix(order, ops) && Between(q, t, order, ops) && i < NUM_SHARDS
    ensures |OfShard(order, i)| <= |OfShard(ops, i)|
    ensures q.state == t && q.workers[i] == Worker(OfShard(ops, i)[|OfShard(order, i)|..], Ready)
  {
    hide OfShard;
    assert OfShard(order, i) <= OfShard(ops, i);
  }

  lemma NothingRun(s: State, ops: seq<RaftOp>)
    requires IsMergePrefix([], ops)
    ensures Between(RunPool(Start(s, ops), ScheduleFor(s, [])), ApplyAll(s, []), [], ops)
    ensures Record(Start(s, ops), ScheduleFor(s, [])) == []
  {
    forall i | 0 <= i < NUM_SHARDS
      ensures Start(s, ops).workers[i] == Worker(OfShard(ops, i)[|OfShard([], i)|..], Ready)
    {
      assert OfShard([], i) == [];
    }
  }

  /** Each order that keeps every shard's own is the order of record of some finished run. */
  lemma EveryMergeHappens(s: State, ops: seq<RaftOp>, order: seq<RaftOp>)
    requires AllSingle(ops) && IsMerge(order, ops)
    ensures var p := Start(s, ops);
            && Done(RunPool(p, ScheduleFor(s, order)))
            && Record(p, ScheduleFor(s, order)) == order
            && RunPool(p, ScheduleFor(s, order)).state == ApplyAll(s, order)
  {
    hide OfShard, RunPool, Record, Single, ScheduleFor, ApplyAll;
    MergeIsSingle(order, ops);
    PrefixHappens(s, ops, order);
    var q := RunPool(Start(s, ops), ScheduleFor(s, order));
    forall i | 0 <= i < NUM_SHARDS
      ensures q.workers[i].queue == []
    {
      assert OfShard(order, i) == OfShard(ops, i);
      BetweenAt(q, ApplyAll(s, order), order, ops, i);
    }
  }

  // ---------------------------------------------------------------- runs of puts

  predicate AllPut(ops: seq<RaftOp>) {
    forall i :: 0 <= i < |ops| ==> ops[i].Put?
  }

  /** What a state holds at one key, revisions aside. */
  datatype Payload = Payload(value: seq<byte>, version: int, lease: int)
  datatype KeyView = KeyView(payload: Option<Payload>, attached: set<int>)

  function AtKey(s: State, k: Key): KeyView {
    KeyView(if k in s.kv then Some(Payload(s.kv[k].value, s.kv[k].version, s.kv[k].lease)) else None,
            set l | l in s.leases && k in s.leases[l])
  }

  function PutAtKey(v: KeyView, op: RaftOp, table: set<int>): KeyView
    requires op.Put?
  {
    KeyView(Some(Payload(op.value, if v.payload.Some? then v.payload.value.version + 1 else 1, op.lease)),
            if op.lease != 0 && op.lease in table then v.attached + {op.lease} else v.attached)
  }

  function PutsAtKey(v: KeyView, ops: seq<RaftOp>, table: set<int>): KeyView
    requires AllPut(ops)
  {
    if ops == [] then v else PutAtKey(PutsAtKey(v, ops[..|ops| - 1], table), ops[|ops| - 1], table)
  }

  lemma PutAt(s: State, op: RaftOp, k: Key)
    requires op.Put?
    ensures AtKey(Apply(s, op), k) == if op.key == k then PutAtKey(AtKey(s, k), op, s.leases.Keys) else AtKey(s, k)
    ensures Apply(s, op).leases.Keys == s.leases.Keys && Apply(s, op).rev == s.rev + 1
  {
    var t := Apply(s, op);
    if op.key == k {
      assert AtKey(t, k).attached == PutAtKey(AtKey(s, k), op, s.leases.Keys).attached;
    } else {
      assert AtKey(t, k).attached == AtKey(s, k).attached;
    }
  }

  lemma {:induction false} OfKeyPuts(ops: seq<RaftOp>, k: Key)
    requires AllPut(ops)
    ensures AllPut(OfKey(ops, k))
  {
    if ops != [] {
      OfKeyPuts(ops[..|ops| - 1], k);
    }
  }

  /** What a run of puts leaves at a key is decided by the puts on that key, in their order. */
  lemma {:induction false} PutsAt(s: State, ops: seq<RaftOp>, k: Key)
    requires AllPut(ops)
    ensures AllPut(OfKey(ops, k))
    ensures AtKey(ApplyAll(s, ops), k) == PutsAtKey(AtKey(s, k), OfKey(ops, k), s.leases.Keys)
    ensures ApplyAll(s, ops).rev == s.rev + |ops| && ApplyAll(s, ops).leases.Keys == s.leases.Keys
  {
    hide AtKey, PutAtKey, Apply;
    OfKeyPuts(ops, k);
    if ops != [] {
      var n := |ops| - 1;
      PutsAt(s, ops[..n], k);
      PutAt(ApplyAll(s, ops[..n]), ops[n], k);
      var before := OfKey(ops[..n], k);
      if ops[n].key == k {
        assert (before + [ops[n]])[..|before|] == before;
      } else {
        assert OfKey(ops, k) == before;
      }
    }
  }

  ghost predicate SameUpToRevisions(a: State, b: State) {
    && a.rev == b.rev
    && a.kv.Keys == b.kv.Keys
    && a.leases == b.leases
    && forall k :: k in a.kv ==> a.kv[k].(createRev := 0, modRev := 0) == b.kv[k].(createRev := 0, modRev := 0)
  }

  lemma SameByKeys(a: State, b: State)
    requires a.rev == b.rev && a.leases.Keys == b.leases.Keys && Keyed(a.kv) && Keyed(b.kv)
    requires forall k :: AtKey(a, k) == AtKey(b, k)
    ensures SameUpToRevisions(a, b)
  {
    forall k
      ensures k in a.kv <==> k in b.kv
    {
      assert AtKey(a, k) == AtKey(b, k);
    }
    forall l | l in a.leases
      ensures a.leases[l] == b.leases[l]
    {
      forall k
        ensures k in a.leases[l] <==> k in b.leases[l]
      {
        assert AtKey(a, k) == AtKey(b, k);
        assert l in AtKey(a, k).attached <==> k in a.leases[l];
        assert l in AtKey(b, k).attached <==> k in b.leases[l];
      }
    }
    assert a.leases == b.leases;
    forall k | k in a.kv
      ensures a.kv[k].(createRev := 0, modRev := 0) == b.kv[k].(createRev := 0, modRev := 0)
    {
      assert AtKey(a, k) == AtKey(b, k);
    }
  }

  lemma {:induction false} PutsKeyed(s: State, ops: seq<RaftOp>)
    requires AllPut(ops) && Keyed(s.kv)
    ensures Keyed(ApplyAll(s, ops).kv)
  {
    if ops != [] {
      PutsKeyed(s, ops[..|ops| - 1]);
    }
  }

  lemma MergeOfPuts(order: seq<RaftOp>, ops: seq<RaftOp>)
    requires IsMerge(order, ops) && AllPut(ops)
    ensures AllPut(order) && |order| == |ops|
  {
    hide IsMerge;
    MergeIsPermutation(order, ops);
    assert |multiset(order)| == |order| && |multiset(ops)| == |ops|;
    forall i | 0 <= i < |order|
      ensures order[i].Put?
    {
      assert order[i] in multiset(order);
      assert order[i] in ops;
    }
  }

  /** Whatever the schedule, a run of puts ends in the same keys, values, versions, leases and counter. */
  lemma PutRunAgreement(s: State, ops: seq<RaftOp>, order: seq<RaftOp>)
    requires AllPut(ops) && IsMerge(order, ops) && Keyed(s.kv)
    ensures SameUpToRevisions(ApplyAll(s, order), ApplyAll(s, ops))
    ensures ApplyAll(s, order).rev == s.rev + |ops|
  {
    hide IsMerge, AtKey, PutsAtKey, ApplyAll, OfKey, SameUpToRevisions, Keyed;
    MergeOfPuts(order, ops);
    var a, b := ApplyAll(s, order), ApplyAll(s, ops);
    forall k
      ensures AtKey(a, k) == AtKey(b, k)
    {
      PutsAt(s, order, k);
      PutsAt(s, ops, k);
      MergeKeepsKeyOrder(order, ops, k);
    }
    PutsAt(s, order, []);
    PutsAt(s, ops, []);
    PutsKeyed(s, order);
    PutsKeyed(s, ops);
    SameByKeys(a, b);
  }

  /** The n-th operation draws the n-th revision after the start; a key shows its last put. */
  lemma {:induction false} LastPutRevision(s: State, ops: seq<RaftOp>, j: nat)
    requires AllPut(ops) && j < |ops|
    requires forall i :: j < i < |ops| ==> ops[i].key != ops[j].key
    ensures ops[j].key in ApplyAll(s, ops).kv
    ensures var kv := ApplyAll(s, ops).kv[ops[j].key];
            kv.modRev == s.rev + j + 1 && kv.value == ops[j].value && kv.lease == ops[j].lease
  {
    var n := |ops| - 1;
    PutsAt(s, ops[..n], []);
    if j < n {
      LastPutRevision(s, ops[..n], j);
    }
  }

  /** The first put of a key in the run, if there is one. */
  function FirstPut(ops: seq<RaftOp>, k: Key): Option<nat> {
    if ops == [] then None
    else
      var n := |ops| - 1;
      match FirstPut(ops[..n], k)
      case Some(j) => Some(j)
      case None => if KeyOf(ops[n]) == k then Some(n) else None
  }

  lemma {:induction false} FirstPutExists(ops: seq<RaftOp>, k: Key)
    ensures FirstPut(ops, k).None? <==> OfKey(ops, k) == []
  {
    if ops != [] {
      FirstPutExists(ops[..|ops| - 1], k);
    }
  }

  /**
   * Across a run of puts a stored key keeps its create revision and a new one takes the
   * revision of its first put; the version counts the puts.
   */
  lemma {:induction false} PutRunKey(s: State, ops: seq<RaftOp>, k: Key)
    requires AllPut(ops)
    ensures var t := ApplyAll(s, ops);
            && (k in t.kv <==> k in s.kv || OfKey(ops, k) != [])
            && (k in t.kv ==>
                  && t.kv[k].version == (if k in s.kv then s.kv[k].version else 0) + |OfKey(ops, k)|
                  && (k in s.kv ==> t.kv[k].createRev == s.kv[k].createRev)
                  && (k !in s.kv ==> FirstPut(ops, k).Some? && t.kv[k].createRev == s.rev + FirstPut(ops, k).value + 1))
  {
    if ops != [] {
      var n := |ops| - 1;
      PutRunKey(s, ops[..n], k);
      PutsAt(s, ops[..n], k);
      FirstPutExists(ops[..n], k);
    }
  }

  // ---------------------------------------------------------------- when the schedule cannot be seen

  predicate OneShard(ops: seq<RaftOp>) {
    forall i, j :: 0 <= i < |ops| && 0 <= j < |ops| ==> ShardOf(ops[i]) == ShardOf(ops[j])
  }

  lemma {:induction false} OfShardWhole(ops: seq<RaftOp>, c: nat)
    requires forall i :: 0 <= i < |ops| ==> ShardOf(ops[i]) == c
    ensures OfShard(ops, c) == ops
  {
    hide ShardOf;
    if ops != [] {
      OfShardWhole(ops[..|ops| - 1], c);
    }
  }

  lemma {:induction false} OfShardNone(ops: seq<RaftOp>, c: nat)
    requires forall i :: 0 <= i < |ops| ==> ShardOf(ops[i]) != c
    ensures OfShard(ops, c) == []
  {
    hide ShardOf;
    if ops != [] {
      OfShardNone(ops[..|ops| - 1], c);
    }
  }

  lemma {:induction false} OfShardConcat(a: seq<RaftOp>, b: seq<RaftOp>, i: nat)
    ensures OfShard(a + b, i) == OfShard(a, i) + OfShard(b, i)
  {
    hide ShardOf;
    if b == [] {
      assert a + b == a;
    } else {
      var n := |b| - 1;
      assert a + b == (a + b[..n]) + [b[n]];
      OfShardConcat(a, b[..n], i);
      OfShardSnoc(a + b[..n], b[n], i);
    }
  }

  lemma OneShardOneOrder(order: seq<RaftOp>, ops: seq<RaftOp>)
    requires IsMerge(order, ops) && OneShard(ops)
    ensures order == ops
  {
    hide OfShard, ShardOf;
    MergeIsPermutation(order, ops);
    if ops == [] {
      assert multiset(order) == multiset{};
      assert |multiset(order)| == |order|;
    } else {
      var c := ShardOf(ops[0]);
      ShardBound(ops[0]);
      forall i | 0 <= i < |order|
        ensures ShardOf(order[i]) == c
      {
        assert order[i] in multiset(order);
        assert order[i] in ops;
      }
      OfShardWhole(order, c);
      OfShardWhole(ops, c);
    }
  }

  /** The last operation outside the shard of the final one. */
  lemma {:induction false} LastOutsider(ops: seq<RaftOp>, c: nat, n: nat) returns (j: nat)
    requires n <= |ops| && exists i :: 0 <= i < n && ShardOf(ops[i]) != c
    requires forall i :: n <= i < |ops| ==> ShardOf(ops[i]) == c
    ensures j < n && ShardOf(ops[j]) != c && forall i :: j < i < |ops| ==> ShardOf(ops[i]) == c
  {
    hide ShardOf;
    if ShardOf(ops[n - 1]) != c {
      j := n - 1;
    } else {
      j := LastOutsider(ops, c, n - 1);
    }
  }

  function MovedLast(ops: seq<RaftOp>, j: nat): seq<RaftOp>
    requires j < |ops|
  {
    ops[..j] + ops[j + 1..] + [ops[j]]
  }

  lemma MovedLastIsMerge(ops: seq<RaftOp>, j: nat, c: nat)
    requires j < |ops| && ShardOf(ops[j]) != c && forall i :: j < i < |ops| ==> ShardOf(ops[i]) == c
    ensures IsMerge(MovedLast(ops, j), ops)
  {
    hide OfShard, ShardOf;
    var a, b, op := ops[..j], ops[j + 1..], ops[j];
    assert ops == (a + [op]) + b;
    forall i | 0 <= i < NUM_SHARDS
      ensures OfShard(MovedLast(ops, j), i) == OfShard(ops, i)
    {
      OfShardConcat(a, b, i);
      OfShardSnoc(a + b, op, i);
      OfShardSnoc(a, op, i);
      OfShardConcat(a + [op], b, i);
      if i == ShardOf(op) {
        OfShardNone(b, i);
      }
    }
  }

  /** A run of puts over two or more shards can end differently: the outsider's revision tells. */
  lemma TwoShardsDiffer(s: State, ops: seq<RaftOp>) returns (order: seq<RaftOp>)
    requires AllPut(ops) && !OneShard(ops)
    ensures IsMerge(order, ops) && ApplyAll(s, order) != ApplyAll(s, ops)
  {
    hide ShardOf, ApplyAll, OfShard, IsMerge;
    var n := |ops|;
    var c := ShardOf(ops[n - 1]);
    assert exists i :: 0 <= i < n && ShardOf(ops[i]) != c;
    var j := LastOutsider(ops, c, n);
    order := MovedLast(ops, j);
    MovedLastIsMerge(ops, j, c);
    MergeOfPuts(order, ops);
    forall i | j < i < n
      ensures ops[i].key != ops[j].key
    {
      OtherShardOtherKey(ops[i], ops[j]);
    }
    LastPutRevision(s, ops, j);
    assert order[n - 1] == ops[j];
    LastPutRevision(s, order, n - 1);
  }

  lemma OtherShardOtherKey(a: RaftOp, b: RaftOp)
    requires a.Put? && b.Put? && ShardOf(a) != ShardOf(b)
    ensures a.key != b.key
  {
    hide GetShard;
  }

  /** Every schedule of a run of puts gives the state of log order exactly when all keys share one shard. */
  lemma PutRunDeterministic(s: State, ops: seq<RaftOp>)
    requires AllPut(ops)
    ensures (forall order :: IsMerge(order, ops) ==> ApplyAll(s, order) == ApplyAll(s, ops)) <==> OneShard(ops)
  {
    hide ShardOf, ApplyAll, OfShard, IsMerge;
    if OneShard(ops) {
      forall order | IsMerge(order, ops)
        ensures ApplyAll(s, order) == ApplyAll(s, ops)
      {
        OneShardOneOrder(order, ops);
      }
    } else {
      var order := TwoShardsDiffer(s, ops);
    }
  }

  /** A schedule that lets every worker finish ends in t. */
  ghost predicate EndsIn(s: State, ops: seq<RaftOp>, schedule: seq<nat>, t: State) {
    IsSchedule(schedule) && Done(RunPool(Start(s, ops), schedule)) ==> RunPool(Start(s, ops), schedule).state == t
  }

  /**
   * The same said of the workers themselves: all interleavings end in the state of log order
   * exactly when the keys share one shard. Replicas that interleave differently may otherwise
   * give the same key different revisions.
   */
  lemma PutScheduleIndependent(s: State, ops: seq<RaftOp>)
    requires AllPut(ops)
    ensures (forall schedule :: EndsIn(s, ops, schedule, ApplyAll(s, ops))) <==> OneShard(ops)
  {
    hide ShardOf, ApplyAll, OfShard, IsMerge, RunPool, Done, Record, OneShard;
    assert AllSingle(ops);
    if OneShard(ops) {
      forall schedule
        ensures EndsIn(s, ops, schedule, ApplyAll(s, ops))
      {
        if IsSchedule(schedule) && Done(RunPool(Start(s, ops), schedule)) {
          Linearizable(s, ops, schedule);
          OneShardOneOrder(Record(Start(s, ops), schedule), ops);
        }
      }
    } else {
      var order := TwoShardsDiffer(s, ops);
      EveryMergeHappens(s, ops, order);
      assert !EndsIn(s, ops, ScheduleFor(s, order), ApplyAll(s, ops));
    }
  }
}

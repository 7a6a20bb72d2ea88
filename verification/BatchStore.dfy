/** The replicated store as an object: committed operations applied one by one or as a batch. */
module BatchStores {
  import opened Bytes
  import opened EtcdSpec
  import opened ShardedMaps
  import opened EtcdStores
  import opened BatchPool
  import opened BatchOrders
  import opened BatchRuns

  // ---------------------------------------------------------------- work left

  function StageSteps(st: Stage): nat {
    match st
    case Ready => 0
    case Found(_) => 1
    case Drawn(_, _) => 2
    case Written(_) => 3
  }

  function WorkOf(w: Worker): int {
    4 * |w.queue| - StageSteps(w.stage)
  }

  function WorkLeft(ws: seq<Worker>): int {
    if ws == [] then 0 else WorkLeft(ws[..|ws| - 1]) + WorkOf(ws[|ws| - 1])
  }

  lemma {:induction false} WorkUpdate(ws: seq<Worker>, i: nat, w: Worker)
    requires i < |ws|
    ensures WorkLeft(ws[i := w]) == WorkLeft(ws) - WorkOf(ws[i]) + WorkOf(w)
  {
    var n := |ws| - 1;
    if i == n {
      assert ws[i := w][..n] == ws[..n];
    } else {
      WorkUpdate(ws[..n], i, w);
      assert ws[i := w][..n] == ws[..n][i := w];
    }
  }

  lemma {:induction false} WorkNonNegative(s: State, ws: seq<Worker>)
    requires forall i :: 0 <= i < |ws| ==> WorkerOk(s, ws[i], i)
    ensures WorkLeft(ws) >= 0
  {
    hide ShardOf, AllSingle;
    if ws != [] {
      WorkNonNegative(s, ws[..|ws| - 1]);
      assert WorkerOk(s, ws[|ws| - 1], |ws| - 1);
    }
  }

  /** A worker that has something to do gets on with it. */
  lemma WorkShrinks(s: State, w: Worker, i: nat)
    requires WorkerOk(s, w, i) && w.queue != []
    ensures WorkOf(WorkerStep(s, w).1) < WorkOf(w)
  {
    hide ShardOf;
    assert Single(w.queue[0]);
  }

  // ---------------------------------------------------------------- grouping

  method GroupByShard(ops: seq<RaftOp>) returns (queues: seq<seq<RaftOp>>)
    ensures |queues| == NUM_SHARDS && forall i :: 0 <= i < NUM_SHARDS ==> queues[i] == OfShard(ops, i)
  {
    hide ShardOf;
    queues := seq(NUM_SHARDS, _ => []);
    var n := 0;
    while n < |ops|
      invariant 0 <= n <= |ops| && |queues| == NUM_SHARDS
      invariant forall i :: 0 <= i < NUM_SHARDS ==> queues[i] == OfShard(ops[..n], i)
    {
      var op := ops[n];
      ShardBound(op);
      forall i | 0 <= i < NUM_SHARDS
        ensures OfShard(ops[..n + 1], i) == OfShard(ops[..n], i) + (if ShardOf(op) == i then [op] else [])
      {
        assert ops[..n + 1] == ops[..n] + [op];
        OfShardSnoc(ops[..n], op, i);
      }
      queues := queues[ShardOf(op) := queues[ShardOf(op)] + [op]];
      n := n + 1;
    }
    assert ops[..n] == ops;
  }

  method SplitDeletes(ops: seq<RaftOp>) returns (singles: seq<RaftOp>, ranges: seq<RaftOp>)
    ensures singles == Singles(ops) && ranges == Ranges(ops)
  {
    hide Single;
    singles, ranges := [], [];
    var n := 0;
    while n < |ops|
      invariant 0 <= n <= |ops| && singles == Singles(ops[..n]) && ranges == Ranges(ops[..n])
    {
      assert ops[..n + 1][..n] == ops[..n];
      if Single(ops[n]) {
        singles := singles + [ops[n]];
      } else {
        ranges := ranges + [ops[n]];
      }
      n := n + 1;
    }
    assert ops[..n] == ops;
  }

  lemma StartIs(s: State, ops: seq<RaftOp>, queues: seq<seq<RaftOp>>, workers: seq<Worker>)
    requires |queues| == NUM_SHARDS && forall i :: 0 <= i < NUM_SHARDS ==> queues[i] == OfShard(ops, i)
    requires |workers| == NUM_SHARDS && forall i :: 0 <= i < NUM_SHARDS ==> workers[i] == Worker(queues[i], Ready)
    ensures Pool(s, workers) == Start(s, ops)
  {
    hide OfShard;
  }

  lemma RunOrderSelf(op: RaftOp)
    ensures RunOrder([op], [op])
  {
    assert [op][..0] == [];
    if op.Delete? {
      if Single(op) {
        assert Singles([op]) == Singles([]) + [op];
        assert Ranges([op]) == Ranges([]);
        assert [op][..1] == [op] && [op][1..] == [];
      } else {
        assert Singles([op]) == Singles([]);
        assert Ranges([op]) == Ranges([]) + [op];
        assert [op][0..] == [op];
      }
    }
  }

  lemma AgreesWorkers(t: State, p: Pool, i: nat)
    requires Agrees(t, p) && i < NUM_SHARDS && p.workers[i].queue != []
    ensures WorkerOk(p.state, p.workers[i], i) && Single(p.workers[i].queue[0])
    ensures p.workers[i].queue[0].Put? ==> !p.workers[i].stage.Found?
    ensures WorkLeft(p.workers) >= 0
  {
    hide ShardOf, KvAgrees, LeaseAgrees, WorkLeft;
    assert WorkerOk(p.state, p.workers[i], i);
    WorkNonNegative(p.state, p.workers);
  }

  // ---------------------------------------------------------------- runs gathered so far

  /** orders explains every run of done but the last, which is still the open batch. */
  ghost predicate Gathered(orders: seq<seq<RaftOp>>, batch: seq<RaftOp>, done: seq<RaftOp>) {
    var rs := Runs(done);
    && |rs| == |orders| + (if batch == [] then 0 else 1)
    && (batch != [] ==> rs[|rs| - 1] == batch)
    && forall i :: 0 <= i < |orders| ==> RunOrder(orders[i], rs[i])
  }

  lemma GatheredRun(orders: seq<seq<RaftOp>>, batch: seq<RaftOp>, done: seq<RaftOp>)
    requires Gathered(orders, batch, done) && batch != []
    ensures IsRun(batch)
  {
    hide RunOrder;
    RunsAreRuns(done);
    assert IsRun(Runs(done)[|Runs(done)| - 1]);
  }

  lemma GatheredFlush(orders: seq<seq<RaftOp>>, batch: seq<RaftOp>, done: seq<RaftOp>, order: seq<RaftOp>)
    requires Gathered(orders, batch, done) && batch != [] && RunOrder(order, batch)
    ensures Gathered(orders + [order], [], done) && BatchOrder(orders + [order], done)
  {
    hide RunOrder, Runs;
  }

  lemma GatheredNext(orders: seq<seq<RaftOp>>, batch: seq<RaftOp>, done: seq<RaftOp>, op: RaftOp)
    requires Gathered(orders, batch, done)
    requires batch != [] ==> KindOf(batch[0]) == KindOf(op)
    requires batch == [] && Runs(done) != [] ==> KindOf(Runs(done)[|Runs(done)| - 1][0]) != KindOf(op)
    ensures Gathered(orders, batch + [op], done + [op])
  {
    hide RunOrder, Runs, KindOf;
    RunsSnoc(done, op);
  }

  lemma NothingGathered(s: State)
    ensures ApplyAll(s, Flat([])) == s && BatchOrder([], []) && Gathered([], [], []) && Runs([]) == []
  {
  }

  lemma OneOperation(s: State, ops: seq<RaftOp>)
    requires |ops| == 1
    ensures BatchOrder([[ops[0]]], ops) && ApplyAll(s, Flat([[ops[0]]])) == Apply(s, ops[0])
  {
    hide RunOrder, KindOf, Apply;
    var op := ops[0];
    RunOrderSelf(op);
    assert ops == [] + [op];
    NothingGathered(s);
    RunsSnoc([], op);
    FlatSnoc([], [op]);
    assert [] + [[op]] == [[op]];
    ApplySnoc(s, [], op);
  }

  class Memory {
    const etcd: MemoryEtcd

    ghost predicate Valid()
      reads this, etcd, etcd.kvData, etcd.kvData.shards
    {
      etcd.Valid()
    }

    ghost function View(): State
      reads this, etcd, etcd.kvData
    {
      etcd.View()
    }

    constructor ()
      ensures Valid() && View() == InitState
      ensures fresh(etcd) && fresh(etcd.kvData) && fresh(etcd.kvData.shards)
    {
      etcd := new MemoryEtcd();
    }

    method ApplyOperation(op: RaftOp)
      requires Valid()
      modifies etcd, etcd.kvData, etcd.kvData.shards
      ensures Valid() && View() == Apply(old(View()), op)
    {
      hide PutDirect, DeleteDirect, TxnEffect, TxnAnswer, GrantDirect, RevokeDirect;
      match op
      case Put(key, value, lease) =>
        var rev, prev := etcd.Store(key, value, lease);
      case Delete(key, end) =>
        etcd.DeleteDirectly(key, end);
      case Txn(compares, thenOps, elseOps, expired) =>
        var r := etcd.Txn(compares, thenOps, elseOps, expired);
      case LeaseGrant(id) =>
        etcd.GrantDirectly(id);
      case LeaseRevoke(id) =>
        etcd.RevokeDirectly(id);
      case Unknown(_) =>
    }

    method ApplyInOrder(ops: seq<RaftOp>)
      requires Valid()
      modifies etcd, etcd.kvData, etcd.kvData.shards
      ensures Valid() && View() == ApplyAll(old(View()), ops)
    {
      hide Apply;
      var n := 0;
      while n < |ops|
        invariant 0 <= n <= |ops| && Valid() && View() == ApplyAll(old(View()), ops[..n])
      {
        assert ops[..n + 1] == ops[..n] + [ops[n]];
        ApplySnoc(old(View()), ops[..n], ops[n]);
        ApplyOperation(ops[n]);
        n := n + 1;
      }
      assert ops[..n] == ops;
    }

    /** One step of one worker: a draw, a write to its shard, or an update of the lease table. */
    method Move(w: Worker) returns (w': Worker)
      requires Valid() && w.queue != [] && Single(w.queue[0])
      requires w.queue[0].Put? ==> !w.stage.Found?
      modifies etcd, etcd.kvData, etcd.kvData.shards
      ensures Valid() && (View(), w') == WorkerStep(old(View()), w)
    {
      var op := w.queue[0];
      w' := w;
      if op.Put? {
        match w.stage {
          case Ready =>
            etcd.revision := etcd.revision + 1;
            w' := w.(stage := Drawn(etcd.revision, op.lease));
          case Drawn(rev, _) =>
            var prev := etcd.kvData.Get(op.key);
            etcd.kvData.Set(op.key, PutKv(prev, op.key, op.value, op.lease, rev));
            w' := w.(stage := Written(op.lease));
          case Written(l) =>
            etcd.leases := Attach(etcd.leases, l, op.key);
            w' := Popped(w);
        }
      } else {
        match w.stage {
          case Ready =>
            var kv := etcd.kvData.Get(op.key);
            w' := if kv.Some? then w.(stage := Found(kv.value.lease)) else Popped(w);
          case Found(l) =>
            etcd.revision := etcd.revision + 1;
            w' := w.(stage := Drawn(etcd.revision, l));
          case Drawn(_, l) =>
            KeyedAfterDrop(etcd.kvData.contents, {op.key});
            etcd.kvData.Delete(op.key);
            w' := w.(stage := Written(l));
          case Written(l) =>
            etcd.leases := Detach(etcd.leases, l, op.key);
            w' := Popped(w);
        }
      }
    }

    /** The workers of a run, moved one step at a time in any interleaving until all are done. */
    method RunWorkers(ops: seq<RaftOp>) returns (ghost order: seq<RaftOp>)
      requires Valid() && AllSingle(ops)
      modifies etcd, etcd.kvData, etcd.kvData.shards
      ensures Valid() && IsMerge(order, ops) && View() == ApplyAll(old(View()), order)
    {
      hide Agrees, Accounts, OfShard, WorkerStep, TakesEffect, ApplyAll, IsMerge, AllSingle, WorkLeft, WorkOf, Single;
      var queues := GroupByShard(ops);
      var workers := seq(NUM_SHARDS, i requires 0 <= i < NUM_SHARDS => Worker(queues[i], Ready));
      ghost var s := View();
      order := [];
      StartIs(s, ops, queues, workers);
      StartAgrees(s, ops);
      StartAccounts(s, ops);
      EmptyRecord(s, Start(s, ops));
      while exists i :: 0 <= i < |workers| && workers[i].queue != []
        invariant Valid() && |workers| == NUM_SHARDS
        invariant Agrees(ApplyAll(s, order), Pool(View(), workers))
        invariant Accounts(order, Pool(View(), workers), ops)
        decreases WorkLeft(workers)
      {
        var i :| 0 <= i < |workers| && workers[i].queue != [];
        ghost var p := Pool(View(), workers);
        ghost var e := TakesEffect(p.state, workers[i]);
        AgreesWorkers(ApplyAll(s, order), p, i);
        StepAgrees(ApplyAll(s, order), p, i);
        StepAccounts(ApplyAll(s, order), p, i, order, ops);
        ApplyConcat(s, order, e);
        WorkUpdate(workers, i, WorkerStep(p.state, workers[i]).1);
        WorkShrinks(p.state, workers[i], i);
        var w := Move(workers[i]);
        workers := workers[i := w];
        order := order + e;
        assert Pool(View(), workers) == PoolStep(p, i);
      }
      DoneIsMerge(ApplyAll(s, order), Pool(View(), workers), order, ops);
    }

    method BatchApplyDelete(ops: seq<RaftOp>) returns (ghost order: seq<RaftOp>)
      requires Valid() && IsRun(ops) && KindOf(ops[0]) == KDelete
      modifies etcd, etcd.kvData, etcd.kvData.shards
      ensures Valid() && RunOrder(order, ops) && View() == ApplyAll(old(View()), order)
    {
      hide ApplyAll, IsMerge, Singles, Ranges, AllSingle;
      var singles, ranges := SplitDeletes(ops);
      SplitRun(ops);
      ghost var merged: seq<RaftOp> := RunWorkers(singles);
      MergeIsPermutation(merged, singles);
      assert |multiset(merged)| == |merged| && |multiset(singles)| == |singles|;
      ApplyConcat(old(View()), merged, ranges);
      ApplyInOrder(ranges);
      order := merged + ranges;
      assert order[..|singles|] == merged && order[|singles|..] == ranges;
    }

    method Flush(batch: seq<RaftOp>) returns (ghost order: seq<RaftOp>)
      requires Valid() && IsRun(batch)
      modifies etcd, etcd.kvData, etcd.kvData.shards
      ensures Valid() && RunOrder(order, batch) && View() == ApplyAll(old(View()), order)
    {
      hide ApplyAll, IsMerge, Singles, Ranges;
      match KindOf(batch[0])
      case KPut =>
        PutRunIsPuts(batch);
        order := RunWorkers(batch);
      case KDelete =>
        order := BatchApplyDelete(batch);
      case _ =>
        order := batch;
        ApplyInOrder(batch);
    }

    method ApplyBatch(ops: seq<RaftOp>) returns (ghost orders: seq<seq<RaftOp>>)
      requires Valid()
      modifies etcd, etcd.kvData, etcd.kvData.shards
      ensures Valid() && BatchOrder(orders, ops)
      ensures View() == ApplyAll(old(View()), Flat(orders))
    {
      hide ApplyAll, RunOrder, Runs, Flat, IsRun, KindOf;
      orders := [];
      NothingGathered(old(View()));
      if |ops| == 0 {
        return;
      }
      if |ops| == 1 {
        orders := [[ops[0]]];
        OneOperation(old(View()), ops);
        ApplyOperation(ops[0]);
        return;
      }
      var batch: seq<RaftOp> := [];
      var n := 0;
      assert ops[..0] == [];
      while n < |ops|
        invariant 0 <= n <= |ops| && Valid()
        invariant n > 0 ==> batch != []
        invariant Gathered(orders, batch, ops[..n])
        invariant View() == ApplyAll(old(View()), Flat(orders))
      {
        assert ops[..n + 1] == ops[..n] + [ops[n]];
        RunsSnoc(ops[..n], ops[n]);
        if |batch| > 0 && KindOf(batch[0]) != KindOf(ops[n]) {
          GatheredRun(orders, batch, ops[..n]);
          ghost var order := Flush(batch);
          ApplyConcat(old(View()), Flat(orders), order);
          FlatSnoc(orders, order);
          GatheredFlush(orders, batch, ops[..n], order);
          orders := orders + [order];
          batch := [];
        }
        GatheredNext(orders, batch, ops[..n], ops[n]);
        batch := batch + [ops[n]];
        n := n + 1;
      }
      assert ops[..n] == ops;
      GatheredRun(orders, batch, ops);
      ghost var order := Flush(batch);
      ApplyConcat(old(View()), Flat(orders), order);
      FlatSnoc(orders, order);
      GatheredFlush(orders, batch, ops, order);
      orders := orders + [order];
    }
  }
}

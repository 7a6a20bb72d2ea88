/**
 * Whole batches under the schedules of their workers: one schedule for each run of the batch, and
 * exactly the permitted orders come out.
 */
module BatchSchedules {
  import opened Bytes
  import opened EtcdSpec
  import opened ShardedMaps
  import opened BatchPool
  import opened BatchOrders
  import opened BatchRuns

  // ---------------------------------------------------------------- one run

  /** What the workers are given: puts, and deletions of one key. */
  function Shared(run: seq<RaftOp>): seq<RaftOp>
    requires run != []
  {
    match KindOf(run[0])
    case KPut => run
    case KDelete => Singles(run)
    case _ => []
  }

  /** What is applied one by one when they are done. */
  function Alone(run: seq<RaftOp>): seq<RaftOp>
    requires run != []
  {
    match KindOf(run[0])
    case KPut => []
    case KDelete => Ranges(run)
    case _ => run
  }

  function Workers(s: State, run: seq<RaftOp>, schedule: seq<nat>): Pool
    requires run != [] && IsSchedule(schedule)
  {
    RunPool(Start(s, Shared(run)), schedule)
  }

  /** The schedule lets every worker of the run finish. */
  predicate Finishes(s: State, run: seq<RaftOp>, schedule: seq<nat>)
    requires run != []
  {
    IsSchedule(schedule) && Done(Workers(s, run, schedule))
  }

  function RunEnd(s: State, run: seq<RaftOp>, schedule: seq<nat>): State
    requires run != [] && IsSchedule(schedule)
  {
    ApplyAll(Workers(s, run, schedule).state, Alone(run))
  }

  lemma SharedIsSingle(run: seq<RaftOp>)
    requires IsRun(run)
    ensures AllSingle(Shared(run))
  {
    PutRunIsPuts(run);
    SplitRun(run);
  }

  /** A permitted order is an order for the workers, then what is applied alone. */
  lemma OrderParts(run: seq<RaftOp>, order: seq<RaftOp>)
    requires IsRun(run)
    ensures var n := |Shared(run)|;
            RunOrder(order, run) <==> n <= |order| && IsMerge(order[..n], Shared(run)) && order[n..] == Alone(run)
  {
    hide IsMerge;
    var n := |Shared(run)|;
    if KindOf(run[0]) == KPut {
      if RunOrder(order, run) {
        MergeIsPermutation(order, run);
        assert |order| == |multiset(order)| == n;
        assert order[..n] == order;
      }
      if n <= |order| && order[n..] == [] {
        assert order[..n] == order;
      }
    } else if KindOf(run[0]) != KDelete {
      assert order[0..] == order;
      NothingMerges(order[..0]);
    }
  }

  lemma NothingMerges(order: seq<RaftOp>)
    requires order == []
    ensures IsMerge(order, [])
  {
  }

  /** Every finished schedule of a run has the effect of a permitted order. */
  lemma ScheduleIsOrder(s: State, run: seq<RaftOp>, schedule: seq<nat>) returns (order: seq<RaftOp>)
    requires IsRun(run) && Finishes(s, run, schedule)
    ensures RunOrder(order, run) && RunEnd(s, run, schedule) == ApplyAll(s, order)
  {
    hide IsMerge, RunOrder, Done, RunPool, ApplyAll, Record, Alone, Shared;
    SharedIsSingle(run);
    Linearizable(s, Shared(run), schedule);
    var first := Record(Start(s, Shared(run)), schedule);
    order := first + Alone(run);
    assert |first| == |multiset(first)| == |multiset(Shared(run))|;
    assert order[..|first|] == first && order[|first|..] == Alone(run);
    OrderParts(run, order);
    ApplyConcat(s, first, Alone(run));
  }

  /** Every permitted order of a run is the effect of a finished schedule. */
  lemma OrderIsSchedule(s: State, run: seq<RaftOp>, order: seq<RaftOp>) returns (schedule: seq<nat>)
    requires IsRun(run) && RunOrder(order, run)
    ensures Finishes(s, run, schedule) && RunEnd(s, run, schedule) == ApplyAll(s, order)
  {
    hide IsMerge, RunOrder, Done, RunPool, ApplyAll, Record, Alone, Shared;
    SharedIsSingle(run);
    OrderParts(run, order);
    var n := |Shared(run)|;
    EveryMergeHappens(s, Shared(run), order[..n]);
    schedule := ScheduleFor(s, order[..n]);
    Linearizable(s, Shared(run), schedule);
    ApplyConcat(s, order[..n], Alone(run));
    assert order == order[..n] + Alone(run);
  }

  // ---------------------------------------------------------------- whole batches

  predicate AllRuns(rs: seq<seq<RaftOp>>) {
    forall i :: 0 <= i < |rs| ==> IsRun(rs[i])
  }

  /** The runs one after another, each to its end under its own schedule. */
  function BatchEnd(s: State, rs: seq<seq<RaftOp>>, schedules: seq<seq<nat>>): State
    requires AllRuns(rs) && |schedules| == |rs| && forall i :: 0 <= i < |schedules| ==> IsSchedule(schedules[i])
  {
    if rs == [] then s
    else
      var n := |rs| - 1;
      RunEnd(BatchEnd(s, rs[..n], schedules[..n]), rs[n], schedules[n])
  }

  predicate BatchFinishes(s: State, rs: seq<seq<RaftOp>>, schedules: seq<seq<nat>>)
    requires AllRuns(rs)
  {
    && |schedules| == |rs|
    && (forall i :: 0 <= i < |schedules| ==> IsSchedule(schedules[i]))
    && (forall i :: 0 <= i < |rs| ==> Finishes(BatchEnd(s, rs[..i], schedules[..i]), rs[i], schedules[i]))
  }

  lemma FinishesPrefix(s: State, rs: seq<seq<RaftOp>>, schedules: seq<seq<nat>>, n: nat)
    requires AllRuns(rs) && BatchFinishes(s, rs, schedules) && n <= |rs|
    ensures BatchFinishes(s, rs[..n], schedules[..n])
  {
    hide Finishes, KindOf, IsSchedule, BatchEnd;
    forall i | 0 <= i < n
      ensures Finishes(BatchEnd(s, rs[..n][..i], schedules[..n][..i]), rs[..n][i], schedules[..n][i])
    {
      assert rs[..n][..i] == rs[..i] && schedules[..n][..i] == schedules[..i];
    }
  }

  lemma FinishesSnoc(s: State, rs: seq<seq<RaftOp>>, schedules: seq<seq<nat>>, run: seq<RaftOp>, schedule: seq<nat>)
    requires AllRuns(rs) && IsRun(run) && BatchFinishes(s, rs, schedules)
    requires Finishes(BatchEnd(s, rs, schedules), run, schedule)
    ensures AllRuns(rs + [run]) && BatchFinishes(s, rs + [run], schedules + [schedule])
    ensures BatchEnd(s, rs + [run], schedules + [schedule]) == RunEnd(BatchEnd(s, rs, schedules), run, schedule)
  {
    hide KindOf, IsSchedule, RunEnd, Workers, Done;
    var rs', schedules' := rs + [run], schedules + [schedule];
    var n := |rs|;
    assert rs'[..n] == rs && schedules'[..n] == schedules;
    forall i | 0 <= i < |rs'|
      ensures Finishes(BatchEnd(s, rs'[..i], schedules'[..i]), rs'[i], schedules'[i])
    {
      if i < n {
        assert rs'[..i] == rs[..i] && schedules'[..i] == schedules[..i];
      }
    }
  }

  /** Every finished schedule of a batch has the effect of permitted orders of its runs. */
  lemma {:induction false} SchedulesAreOrders(s: State, rs: seq<seq<RaftOp>>, schedules: seq<seq<nat>>) returns (orders: seq<seq<RaftOp>>)
    requires AllRuns(rs) && BatchFinishes(s, rs, schedules)
    ensures Ordered(orders, rs) && BatchEnd(s, rs, schedules) == ApplyAll(s, Flat(orders))
  {
    hide IsRun, RunOrder, RunEnd, Finishes, ApplyAll, Flat;
    orders := [];
    if rs == [] {
      NothingApplied(s);
      NothingFlat();
    } else {
      var n := |rs| - 1;
      FinishesPrefix(s, rs, schedules, n);
      var before := SchedulesAreOrders(s, rs[..n], schedules[..n]);
      var t := BatchEnd(s, rs[..n], schedules[..n]);
      var order := ScheduleIsOrder(t, rs[n], schedules[n]);
      orders := before + [order];
      FlatSnoc(before, order);
      ApplyConcat(s, Flat(before), order);
    }
  }

  lemma NothingFlat()
    ensures Flat([]) == []
  {
  }

  /** And permitted orders of the runs are the effect of a finished schedule of the batch. */
  lemma {:induction false} OrdersAreSchedules(s: State, rs: seq<seq<RaftOp>>, orders: seq<seq<RaftOp>>) returns (schedules: seq<seq<nat>>)
    requires AllRuns(rs) && Ordered(orders, rs)
    ensures BatchFinishes(s, rs, schedules) && BatchEnd(s, rs, schedules) == ApplyAll(s, Flat(orders))
  {
    hide IsRun, RunOrder, RunEnd, Finishes, ApplyAll, Flat;
    schedules := [];
    if rs == [] {
      NothingApplied(s);
      NothingFlat();
    } else {
      var n := |rs| - 1;
      var before := OrdersAreSchedules(s, rs[..n], orders[..n]);
      var schedule := OrderIsSchedule(BatchEnd(s, rs[..n], before), rs[n], orders[n]);
      schedules := before + [schedule];
      FinishesSnoc(s, rs[..n], before, rs[n], schedule);
      assert rs[..n] + [rs[n]] == rs;
      FlatTail(orders);
      ApplyConcat(s, Flat(orders[..n]), orders[n]);
    }
  }

  lemma RunsOfBatch(ops: seq<RaftOp>)
    ensures AllRuns(Runs(ops))
  {
    hide Runs, IsRun, KindOf;
    RunsAreRuns(ops);
  }

  // ---------------------------------------------------------------- what schedules decide

  /** The schedules finish the batch and leave t. */
  predicate Leaves(s: State, ops: seq<RaftOp>, schedules: seq<seq<nat>>, t: State) {
    RunsOfBatch(ops);
    BatchFinishes(s, Runs(ops), schedules) && BatchEnd(s, Runs(ops), schedules) == t
  }

  lemma LeavesOrder(s: State, ops: seq<RaftOp>, schedules: seq<seq<nat>>, t: State) returns (orders: seq<seq<RaftOp>>)
    requires Leaves(s, ops, schedules, t)
    ensures BatchOrder(orders, ops) && t == ApplyAll(s, Flat(orders))
  {
    hide Runs, BatchFinishes, BatchEnd, ApplyAll, Flat, IsRun, RunOrder;
    RunsOfBatch(ops);
    orders := SchedulesAreOrders(s, Runs(ops), schedules);
  }

  lemma OrderLeaves(s: State, ops: seq<RaftOp>, orders: seq<seq<RaftOp>>) returns (schedules: seq<seq<nat>>)
    requires BatchOrder(orders, ops)
    ensures Leaves(s, ops, schedules, ApplyAll(s, Flat(orders)))
  {
    hide Runs, BatchFinishes, BatchEnd, ApplyAll, Flat, IsRun, RunOrder;
    RunsOfBatch(ops);
    BatchOrderIsOrdered(orders, ops);
    schedules := OrdersAreSchedules(s, Runs(ops), orders);
  }

  /** Every schedule of the workers that finishes the batch ends in the state of log order. */
  ghost predicate EndsInLogOrder(s: State, ops: seq<RaftOp>) {
    forall schedules, t :: Leaves(s, ops, schedules, t) ==> t == ApplyAll(s, ops)
  }

  lemma SchedulesAgreeWithOrders(s: State, ops: seq<RaftOp>)
    ensures EndsInLogOrder(s, ops) <==> OrdersAgree(s, ops)
  {
    hide Leaves, BatchOrder, ApplyAll, Flat;
    if OrdersAgree(s, ops) {
      forall schedules, t | Leaves(s, ops, schedules, t)
        ensures t == ApplyAll(s, ops)
      {
        var orders := LeavesOrder(s, ops, schedules, t);
      }
    }
    if EndsInLogOrder(s, ops) {
      forall orders | BatchOrder(orders, ops)
        ensures ApplyAll(s, Flat(orders)) == ApplyAll(s, ops)
      {
        var schedules := OrderLeaves(s, ops, orders);
      }
    }
  }

  /** Every start of a batch, applied as a batch of its own, ends under every schedule in the state of log
      order exactly when each run of puts of the whole batch stays within one shard. */
  lemma BatchesDeterministicExactly(s: State, ops: seq<RaftOp>)
    ensures (forall n :: 0 <= n <= |ops| ==> EndsInLogOrder(s, ops[..n])) <==> PutRunsOneShard(Runs(ops))
  {
    hide Runs, EndsInLogOrder, OrdersAgree;
    forall n | 0 <= n <= |ops|
      ensures EndsInLogOrder(s, ops[..n]) <==> OrdersAgree(s, ops[..n])
    {
      SchedulesAgreeWithOrders(s, ops[..n]);
    }
    if PutRunsOneShard(Runs(ops)) {
      forall n | 0 <= n <= |ops|
        ensures OrdersAgree(s, ops[..n])
      {
        OneShardPrefixes(ops, n);
        AlwaysLogOrder(s, ops[..n]);
      }
    } else {
      var n := SomePrefixDiffers(s, ops);
    }
  }

  /** A batch with no transaction ends, under every schedule, in the keys, values, versions, leases and
      counter that its operations would leave in log order. */
  lemma SchedulesAgreeUpToRevisions(s: State, ops: seq<RaftOp>, schedules: seq<seq<nat>>, t: State)
    requires Leaves(s, ops, schedules, t) && Keyed(s.kv) && NoTxn(ops)
    ensures SameUpToRevisions(t, ApplyAll(s, ops))
  {
    hide *;
    var orders := LeavesOrder(s, ops, schedules, t);
    BatchUpToRevisions(s, ops, orders);
  }

  // ---------------------------------------------------------------- a transaction that reads a revision

  function WriteIfFirst(s: State, a: Key, c: Key): RaftOp {
    Txn([Compare(a, CompareMod(s.rev + 1), CompareEqual)], [OpPut(c, [1], 0)], [OpPut(c, [2], 0)], {})
  }

  /** Two puts, and a transaction that asks which of them came first. */
  function Race(s: State, a: Key, b: Key, c: Key): seq<RaftOp> {
    [Put(a, [], 0)] + [Put(b, [], 0)] + [WriteIfFirst(s, a, c)]
  }

  lemma RaceRuns(s: State, a: Key, b: Key, c: Key)
    ensures Runs(Race(s, a, b, c)) == [[Put(a, [], 0), Put(b, [], 0)], [WriteIfFirst(s, a, c)]]
  {
    hide Runs, Flat;
    var puts, txn := [Put(a, [], 0), Put(b, [], 0)], [WriteIfFirst(s, a, c)];
    NoRuns();
    RunsAppend([], puts);
    assert [] + puts == puts && [] + [puts] == [puts];
    RunsAppend(puts, txn);
    assert puts + txn == Race(s, a, b, c) && [puts] + [txn] == [puts, txn];
  }

  lemma SwappedPuts(a: Key, b: Key)
    requires GetShard(a) != GetShard(b)
    ensures IsMerge([Put(b, [], 0), Put(a, [], 0)], [Put(a, [], 0), Put(b, [], 0)])
  {
    hide IsMerge;
    var ops := [Put(a, [], 0), Put(b, [], 0)];
    MovedLastIsMerge(ops, 0, GetShard(b));
    assert MovedLast(ops, 0) == [Put(b, [], 0), Put(a, [], 0)];
  }

  lemma TwoPutsApplied(s: State, k: Key, l: Key)
    requires k != l
    ensures var t := ApplyAll(s, [Put(k, [], 0), Put(l, [], 0)]);
            k in t.kv && l in t.kv && t.kv[k].modRev == s.rev + 1 && t.kv[l].modRev == s.rev + 2
  {
    hide ApplyAll;
    var x, y := Put(k, [], 0), Put(l, [], 0);
    NothingApplied(s);
    ApplySnoc(s, [], x);
    ApplySnoc(s, [x], y);
    assert [] + [x] == [x] && [x] + [y] == [x, y];
  }

  lemma NothingApplied(s: State)
    ensures ApplyAll(s, []) == s
  {
  }

  lemma RaceEnds(s: State, t: State, a: Key, c: Key)
    requires a in t.kv
    ensures var end := Apply(t, WriteIfFirst(s, a, c));
            c in end.kv && end.kv[c].value == if t.kv[a].modRev == s.rev + 1 then [1] else [2]
  {
    var cmp := Compare(a, CompareMod(s.rev + 1), CompareEqual);
    assert AllHold(t.kv, [cmp]) <==> Holds(t.kv, [cmp][0]);
    RunOneOp(t, OpPut(c, [1], 0));
    RunOneOp(t, OpPut(c, [2], 0));
  }

  lemma RunOneOp(s: State, op: Op)
    requires op.OpPut? && op.lease == 0
    ensures RunOps(s, {}, [op]).state == OpEffect(s, op)
  {
    assert [op][..0] == [];
  }

  /** With a transaction behind them, puts to two shards can leave different values, not just different
      revisions: the value of c depends on the schedule, from every state. */
  lemma ScheduleDecidesValue(s: State, a: Key, b: Key, c: Key) returns (x: seq<seq<nat>>, y: seq<seq<nat>>, p: State, q: State)
    requires GetShard(a) != GetShard(b)
    ensures Leaves(s, Race(s, a, b, c), x, p) && Leaves(s, Race(s, a, b, c), y, q)
    ensures c in p.kv && c in q.kv && p.kv[c].value == [1] && q.kv[c].value == [2]
  {
    hide Runs, GetShard, IsMerge, Apply, ApplyAll, Flat, Leaves;
    var puts, swapped, txn := [Put(a, [], 0), Put(b, [], 0)], [Put(b, [], 0), Put(a, [], 0)], [WriteIfFirst(s, a, c)];
    RaceRuns(s, a, b, c);
    SwappedPuts(a, b);
    InLogOrder(puts);
    InLogOrder(txn);
    x := OrderLeaves(s, Race(s, a, b, c), [puts, txn]);
    y := OrderLeaves(s, Race(s, a, b, c), [swapped, txn]);
    p, q := ApplyAll(s, Flat([puts, txn])), ApplyAll(s, Flat([swapped, txn]));
    TwoPutsApplied(s, a, b);
    TwoPutsApplied(s, b, a);
    RaceState(s, puts, a, c);
    RaceState(s, swapped, a, c);
  }

  lemma RaceState(s: State, puts: seq<RaftOp>, a: Key, c: Key)
    requires a in ApplyAll(s, puts).kv
    ensures var end := ApplyAll(s, Flat([puts, [WriteIfFirst(s, a, c)]]));
            c in end.kv && end.kv[c].value == if ApplyAll(s, puts).kv[a].modRev == s.rev + 1 then [1] else [2]
  {
    hide ApplyAll, Apply;
    var txn := [WriteIfFirst(s, a, c)];
    FlatSnoc([], puts);
    FlatSnoc([puts], txn);
    assert [] + [puts] == [puts] && [puts] + [txn] == [puts, txn] && Flat([puts]) == [] + puts == puts;
    ApplySnoc(s, puts, txn[0]);
    RaceEnds(s, ApplyAll(s, puts), a, c);
  }

  /** Keys that make it happen. */
  lemma RaceHappens() returns (x: seq<seq<nat>>, y: seq<seq<nat>>, p: State, q: State)
    ensures var ops := Race(InitState, [0], [1], [2]);
            && Leaves(InitState, ops, x, p) && Leaves(InitState, ops, y, q) && !PutRunsOneShard(Runs(ops))
            && [2] in p.kv && [2] in q.kv && p.kv[[2]].value != q.kv[[2]].value
  {
    hide ApplyAll, Flat, Leaves, Runs, GetShard;
    ZeroAndOneApart();
    x, y, p, q := ScheduleDecidesValue(InitState, [0], [1], [2]);
    RaceRuns(InitState, [0], [1], [2]);
    var puts := [Put([0], [], 0), Put([1], [], 0)];
    assert ShardOf(puts[0]) != ShardOf(puts[1]);
    assert Runs(Race(InitState, [0], [1], [2]))[0] == puts;
  }
}

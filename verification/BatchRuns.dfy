/** Whole batches: maximal runs of one kind of operation, applied run after run. */
module BatchRuns {
  import opened Bytes
  import opened EtcdSpec
  import opened ShardedMaps
  import opened BatchPool
  import opened BatchOrders

  // ---------------------------------------------------------------- runs of deletions

  predicate AllDelete(ops: seq<RaftOp>) {
    forall i :: 0 <= i < |ops| ==> ops[i].Delete?
  }

  predicate Covers(op: RaftOp, k: Key)
    requires op.Delete?
  {
    if op.end == [] then k == op.key else InInterval(k, op.key, op.end)
  }

  /** The stored keys that some operation of the run covers. */
  ghost function DoomedBy(m: map<Key, KeyValue>, ops: seq<RaftOp>): set<Key>
    requires AllDelete(ops)
  {
    set k | k in m && exists i :: 0 <= i < |ops| && Covers(ops[i], k)
  }

  lemma DoomedExact(m: map<Key, KeyValue>, op: RaftOp)
    requires op.Delete?
    ensures KeySet(DoomedKeys(m, op.key, op.end)) == set k | k in m && Covers(op, k)
    ensures |KeySet(DoomedKeys(m, op.key, op.end))| == |DoomedKeys(m, op.key, op.end)|
  {
    hide InInterval, Less;
    if op.end != [] {
      var ks := set k | k in m && InInterval(k, op.key, op.end);
      assert DoomedKeys(m, op.key, op.end) == Ascending(ks);
      AscendingSize(ks);
      assert ks == set k | k in m && Covers(op, k);
    } else if op.key in m {
      assert KeySet([op.key]) == {op.key};
      assert (set k | k in m && Covers(op, k)) == {op.key};
    } else {
      assert KeySet([]) == {};
    }
  }

  lemma DroppedTwice(s: State, ks: set<Key>, t: State, js: set<Key>, u: State)
    requires IsDropped(s, ks, t) && IsDropped(t, js, u)
    ensures IsDropped(s, ks + js, u)
  {
    assert s.kv - (ks + js) == u.kv;
    forall l, k | l in s.leases
      ensures k in u.leases[l] <==> k in s.leases[l] && !DroppedFrom(s, ks + js, l, k)
    {
      assert k in t.leases[l] <==> k in s.leases[l] && !DroppedFrom(s, ks, l, k);
      assert k in u.leases[l] <==> k in t.leases[l] && !DroppedFrom(t, js, l, k);
      assert k !in ks ==> (DroppedFrom(t, js, l, k) <==> DroppedFrom(s, js, l, k));
    }
  }

  lemma DroppedAtRev(s: State, ks: set<Key>, t: State, r: int)
    requires IsDropped(s, ks, t)
    ensures IsDropped(s.(rev := r), ks, t.(rev := r))
  {
    forall l, k
      ensures DroppedFrom(s, ks, l, k) <==> DroppedFrom(s.(rev := r), ks, l, k)
    {
    }
  }

  lemma DoomedNext(m: map<Key, KeyValue>, ops: seq<RaftOp>, op: RaftOp, here: set<Key>)
    requires AllDelete(ops) && op.Delete?
    requires here == set k | k in m - DoomedBy(m, ops) && Covers(op, k)
    ensures AllDelete(ops + [op])
    ensures DoomedBy(m, ops + [op]) == DoomedBy(m, ops) + here
    ensures DoomedBy(m, ops) !! here
  {
    hide Covers;
    var all := ops + [op];
    forall k | k in DoomedBy(m, all)
      ensures k in DoomedBy(m, ops) + here
    {
      var i :| 0 <= i < |all| && Covers(all[i], k);
      if i < |ops| {
        assert Covers(ops[i], k);
      }
    }
    forall k | k in DoomedBy(m, ops) + here
      ensures k in DoomedBy(m, all)
    {
      if k in DoomedBy(m, ops) {
        var i :| 0 <= i < |ops| && Covers(ops[i], k);
        assert Covers(all[i], k);
      } else {
        assert Covers(all[|ops|], k);
      }
    }
  }

  /** A run of deletions removes every stored key it covers, and draws one revision for each. */
  lemma {:induction false} DeletesExact(s: State, ops: seq<RaftOp>)
    requires AllDelete(ops)
    ensures IsDropped(s, DoomedBy(s.kv, ops), ApplyAll(s, ops).(rev := s.rev))
    ensures ApplyAll(s, ops).rev == s.rev + |DoomedBy(s.kv, ops)|
  {
    hide IsDropped, Covers, DropAll, DoomedKeys, KeySet;
    if ops == [] {
      DroppedNone(s);
      assert DoomedBy(s.kv, ops) == {};
    } else {
      var n := |ops| - 1;
      var pre, op := ops[..n], ops[n];
      assert ops == pre + [op];
      DeletesExact(s, pre);
      var t := ApplyAll(s, pre);
      var ks := DoomedKeys(t.kv, op.key, op.end);
      DoomedExact(t.kv, op);
      KvOfDropped(s, DoomedBy(s.kv, pre), t.(rev := s.rev));
      DoomedNext(s.kv, pre, op, KeySet(ks));
      DropAllExact(t, ks);
      DroppedAtRev(t, KeySet(ks), DropAll(t, ks), s.rev);
      DroppedTwice(s, DoomedBy(s.kv, pre), t.(rev := s.rev), KeySet(ks), DropAll(t, ks).(rev := s.rev));
      assert ApplyAll(s, ops) == DropAll(t, ks).(rev := t.rev + |ks|);
    }
  }

  lemma KvOfDropped(s: State, ks: set<Key>, t: State)
    requires IsDropped(s, ks, t)
    ensures t.kv == s.kv - ks
  {
  }

  /** So the order of a run of deletions does not matter at all. */
  lemma DeleteOrderIrrelevant(s: State, a: seq<RaftOp>, b: seq<RaftOp>)
    requires AllDelete(a) && AllDelete(b) && multiset(a) == multiset(b)
    ensures ApplyAll(s, a) == ApplyAll(s, b)
  {
    hide IsDropped, ApplyAll, Covers, DoomedBy;
    DeletesExact(s, a);
    DeletesExact(s, b);
    SameDoomed(s.kv, a, b);
    SameDoomed(s.kv, b, a);
    assert DoomedBy(s.kv, a) == DoomedBy(s.kv, b);
    DroppedUnique(s, DoomedBy(s.kv, a), ApplyAll(s, a).(rev := s.rev), ApplyAll(s, b).(rev := s.rev));
    SameButRev(ApplyAll(s, a), ApplyAll(s, b), s.rev);
  }

  lemma SameButRev(a: State, b: State, r: int)
    requires a.(rev := r) == b.(rev := r) && a.rev == b.rev
    ensures a == b
  {
  }

  lemma SameDoomed(m: map<Key, KeyValue>, a: seq<RaftOp>, b: seq<RaftOp>)
    requires AllDelete(a) && AllDelete(b) && multiset(a) == multiset(b)
    ensures DoomedBy(m, a) <= DoomedBy(m, b)
  {
    hide Covers;
    forall k | k in DoomedBy(m, a)
      ensures k in DoomedBy(m, b)
    {
      var i :| 0 <= i < |a| && Covers(a[i], k);
      assert a[i] in multiset(a);
      var j :| 0 <= j < |b| && b[j] == a[i];
    }
  }

  // ---------------------------------------------------------------- one run

  datatype Kind = KPut | KDelete | KTxn | KGrant | KRevoke | KUnknown(tag: string)

  function KindOf(op: RaftOp): Kind {
    match op
    case Put(_, _, _) => KPut
    case Delete(_, _) => KDelete
    case Txn(_, _, _, _) => KTxn
    case LeaseGrant(_) => KGrant
    case LeaseRevoke(_) => KRevoke
    case Unknown(tag) => KUnknown(tag)
  }

  predicate IsRun(run: seq<RaftOp>) {
    run != [] && forall i :: 0 <= i < |run| ==> KindOf(run[i]) == KindOf(run[0])
  }

  function Singles(ops: seq<RaftOp>): seq<RaftOp> {
    if ops == [] then []
    else Singles(ops[..|ops| - 1]) + (if Single(ops[|ops| - 1]) then [ops[|ops| - 1]] else [])
  }

  function Ranges(ops: seq<RaftOp>): seq<RaftOp> {
    if ops == [] then []
    else Ranges(ops[..|ops| - 1]) + (if Single(ops[|ops| - 1]) then [] else [ops[|ops| - 1]])
  }

  lemma {:induction false} SplitRun(ops: seq<RaftOp>)
    ensures multiset(Singles(ops)) + multiset(Ranges(ops)) == multiset(ops)
    ensures AllSingle(Singles(ops))
  {
    hide Single, Singles, Ranges;
    NothingSplit();
    if ops != [] {
      var n := |ops| - 1;
      var pre, op := ops[..n], ops[n];
      SplitRun(pre);
      assert ops == pre + [op];
      SplitSnoc(pre, op);
      var singles, ranges := Singles(pre), Ranges(pre);
      assert multiset(pre + [op]) == multiset(pre) + multiset{op};
      assert multiset(singles + [op]) == multiset(singles) + multiset{op};
      assert multiset(ranges + [op]) == multiset(ranges) + multiset{op};
    }
  }

  lemma NothingSplit()
    ensures Singles([]) == [] && Ranges([]) == []
  {
  }

  lemma SplitSnoc(pre: seq<RaftOp>, op: RaftOp)
    ensures Singles(pre + [op]) == if Single(op) then Singles(pre) + [op] else Singles(pre)
    ensures Ranges(pre + [op]) == if Single(op) then Ranges(pre) else Ranges(pre) + [op]
  {
    hide Single;
    assert (pre + [op])[..|pre|] == pre;
  }

  /**
   * The orders a run may take effect in: puts shard by shard, deletions of one key shard by
   * shard and then the range deletions, everything else as it came.
   */
  ghost predicate RunOrder(order: seq<RaftOp>, run: seq<RaftOp>)
    requires run != []
  {
    match KindOf(run[0])
    case KPut => IsMerge(order, run)
    case KDelete =>
      var n := |Singles(run)|;
      n <= |order| && IsMerge(order[..n], Singles(run)) && order[n..] == Ranges(run)
    case _ => order == run
  }

  lemma PutRunIsPuts(run: seq<RaftOp>)
    requires IsRun(run)
    ensures KindOf(run[0]) == KPut ==> AllPut(run)
    ensures KindOf(run[0]) == KDelete ==> AllDelete(run)
    ensures KindOf(run[0]) == KTxn || forall i :: 0 <= i < |run| ==> !run[i].Txn?
  {
    forall i | 0 <= i < |run|
      ensures KindOf(run[i]) == KindOf(run[0])
    {
    }
  }

  /** No operation of a run is lost, added or repeated. */
  lemma RunOrderIsPermutation(order: seq<RaftOp>, run: seq<RaftOp>)
    requires IsRun(run) && RunOrder(order, run)
    ensures multiset(order) == multiset(run)
  {
    hide IsMerge, Single, Singles, Ranges;
    if KindOf(run[0]) == KPut {
      MergeIsPermutation(order, run);
    } else if KindOf(run[0]) == KDelete {
      var n := |Singles(run)|;
      MergeIsPermutation(order[..n], Singles(run));
      SplitRun(run);
      assert order == order[..n] + order[n..];
    }
  }

  /** Deletions end in the state of log order, whatever the schedule. */
  lemma DeleteRunExact(s: State, run: seq<RaftOp>, order: seq<RaftOp>)
    requires IsRun(run) && KindOf(run[0]) == KDelete && RunOrder(order, run)
    ensures ApplyAll(s, order) == ApplyAll(s, run)
  {
    hide RunOrder, ApplyAll;
    PutRunIsPuts(run);
    RunOrderIsPermutation(order, run);
    forall i | 0 <= i < |order|
      ensures order[i].Delete?
    {
      assert order[i] in multiset(order);
      assert order[i] in run;
    }
    DeleteOrderIrrelevant(s, order, run);
  }

  // ---------------------------------------------------------------- carrying agreement through later operations

  lemma SameDrop(a: State, b: State, k: Key)
    requires SameUpToRevisions(a, b)
    ensures SameUpToRevisions(Drop(a, k), Drop(b, k))
  {
    if k in a.kv {
      assert a.kv[k].lease == b.kv[k].lease;
      assert Drop(a, k).kv.Keys == Drop(b, k).kv.Keys;
    }
  }

  lemma {:induction false} SameDropAll(a: State, b: State, ks: seq<Key>)
    requires SameUpToRevisions(a, b)
    ensures SameUpToRevisions(DropAll(a, ks), DropAll(b, ks))
  {
    hide SameUpToRevisions, Drop;
    if ks != [] {
      SameDropAll(a, b, ks[..|ks| - 1]);
      SameDrop(DropAll(a, ks[..|ks| - 1]), DropAll(b, ks[..|ks| - 1]), ks[|ks| - 1]);
    }
  }

  lemma SameDoomedKeys(a: State, b: State, key: Key, end: Key)
    requires SameUpToRevisions(a, b)
    ensures DoomedKeys(a.kv, key, end) == DoomedKeys(b.kv, key, end)
  {
    hide Less, InInterval;
    assert forall k :: k in a.kv <==> k in a.kv.Keys;
    assert (set k | k in a.kv && InInterval(k, key, end)) == (set k | k in b.kv && InInterval(k, key, end));
  }

  lemma SameLeased(a: State, b: State, id: int)
    requires SameUpToRevisions(a, b) && id in a.leases
    ensures LeasedKeys(a, id) == LeasedKeys(b, id)
  {
    hide Less;
    assert (set k | k in a.leases[id] && k in a.kv) == (set k | k in b.leases[id] && k in b.kv);
  }

  lemma SameAtRev(a: State, b: State, r: int)
    requires SameUpToRevisions(a, b)
    ensures SameUpToRevisions(a.(rev := r), b.(rev := r))
  {
  }

  lemma SamePut(a: State, b: State, key: Key, value: seq<byte>, lease: int)
    requires SameUpToRevisions(a, b)
    ensures SameUpToRevisions(PutDirect(a, key, value, lease), PutDirect(b, key, value, lease))
  {
    var a', b' := PutDirect(a, key, value, lease), PutDirect(b, key, value, lease);
    assert a'.kv.Keys == b'.kv.Keys;
    if key in a.kv {
      assert a.kv[key].(createRev := 0, modRev := 0) == b.kv[key].(createRev := 0, modRev := 0);
      assert a.kv[key].version == b.kv[key].version;
    }
  }

  /** Operations other than transactions cannot see revisions, so they keep the agreement. */
  lemma SameApply(a: State, b: State, op: RaftOp)
    requires SameUpToRevisions(a, b) && !op.Txn?
    ensures SameUpToRevisions(Apply(a, op), Apply(b, op))
  {
    hide SameUpToRevisions, DropAll, DoomedKeys, PutDirect, LeasedKeys;
    SameBasics(a, b);
    match op
    case Put(key, value, lease) => SamePut(a, b, key, value, lease);
    case Delete(key, end) =>
      SameDoomedKeys(a, b, key, end);
      var ks := DoomedKeys(a.kv, key, end);
      SameDropAll(a, b, ks);
      SameAtRev(DropAll(a, ks), DropAll(b, ks), a.rev + |ks|);
    case LeaseGrant(id) => SameWithLeases(a, b, a.leases[id := {}]);
    case LeaseRevoke(id) =>
      if id in a.leases {
        SameLeased(a, b, id);
        var ks := LeasedKeys(a, id);
        SameWithLeases(a, b, a.leases - {id});
        var a', b' := a.(leases := a.leases - {id}), b.(leases := b.leases - {id});
        SameDropAll(a', b', ks);
        SameAtRev(DropAll(a', ks), DropAll(b', ks), a.rev + |ks|);
      }
    case Unknown(_) =>
  }

  lemma SameBasics(a: State, b: State)
    requires SameUpToRevisions(a, b)
    ensures a.rev == b.rev && a.leases == b.leases
  {
  }

  lemma SameWithLeases(a: State, b: State, table: map<int, set<Key>>)
    requires SameUpToRevisions(a, b)
    ensures SameUpToRevisions(a.(leases := table), b.(leases := table))
  {
  }

  lemma {:induction false} SameApplyAll(a: State, b: State, ops: seq<RaftOp>)
    requires SameUpToRevisions(a, b) && forall i :: 0 <= i < |ops| ==> !ops[i].Txn?
    ensures SameUpToRevisions(ApplyAll(a, ops), ApplyAll(b, ops))
  {
    hide SameUpToRevisions, Apply;
    if ops != [] {
      var n := |ops| - 1;
      SameApplyAll(a, b, ops[..n]);
      SameApply(ApplyAll(a, ops[..n]), ApplyAll(b, ops[..n]), ops[n]);
    }
  }

  // ---------------------------------------------------------------- whole batches

  function Flat(rs: seq<seq<RaftOp>>): seq<RaftOp> {
    if rs == [] then [] else Flat(rs[..|rs| - 1]) + rs[|rs| - 1]
  }

  lemma FlatSnoc(rs: seq<seq<RaftOp>>, r: seq<RaftOp>)
    ensures Flat(rs + [r]) == Flat(rs) + r
  {
    assert (rs + [r])[..|rs|] == rs;
  }

  /** The maximal runs of one kind. */
  function Runs(ops: seq<RaftOp>): (rs: seq<seq<RaftOp>>)
    ensures forall i :: 0 <= i < |rs| ==> rs[i] != []
  {
    if ops == [] then []
    else
      var op := ops[|ops| - 1];
      var rs := Runs(ops[..|ops| - 1]);
      if rs != [] && KindOf(rs[|rs| - 1][0]) == KindOf(op) then rs[..|rs| - 1] + [rs[|rs| - 1] + [op]]
      else rs + [[op]]
  }

  lemma RunsSnoc(ops: seq<RaftOp>, op: RaftOp)
    ensures var rs := Runs(ops);
            Runs(ops + [op]) ==
            if rs != [] && KindOf(rs[|rs| - 1][0]) == KindOf(op) then rs[..|rs| - 1] + [rs[|rs| - 1] + [op]]
            else rs + [[op]]
  {
    assert (ops + [op])[..|ops|] == ops;
  }

  /** The runs cover the batch in order, each of one kind, neighbours of different kinds. */
  lemma {:induction false} RunsAreRuns(ops: seq<RaftOp>)
    ensures Flat(Runs(ops)) == ops && AlternatingRuns(Runs(ops))
  {
    hide KindOf, Runs, Flat, IsRun, AlternatingRuns;
    if ops == [] {
      NoRuns();
    } else {
      var n := |ops| - 1;
      var pre, op := ops[..n], ops[n];
      RunsAreRuns(pre);
      var rs := Runs(pre);
      assert ops == pre + [op];
      RunsSnoc(pre, op);
      if rs != [] && KindOf(rs[|rs| - 1][0]) == KindOf(op) {
        LongerRun(rs, op);
      } else {
        FlatSnoc(rs, [op]);
        AnotherRun(rs, op);
      }
    }
  }

  predicate AlternatingRuns(rs: seq<seq<RaftOp>>) {
    && (forall i :: 0 <= i < |rs| ==> rs[i] != [] && IsRun(rs[i]))
    && (forall i :: 0 < i < |rs| ==> KindOf(rs[i - 1][0]) != KindOf(rs[i][0]))
  }

  lemma NoRuns()
    ensures Runs([]) == [] && Flat([]) == [] && AlternatingRuns([])
  {
  }

  lemma LongerRun(rs: seq<seq<RaftOp>>, op: RaftOp)
    requires AlternatingRuns(rs) && rs != [] && KindOf(rs[|rs| - 1][0]) == KindOf(op)
    ensures AlternatingRuns(rs[..|rs| - 1] + [rs[|rs| - 1] + [op]])
    ensures Flat(rs[..|rs| - 1] + [rs[|rs| - 1] + [op]]) == Flat(rs) + [op]
  {
    hide KindOf, AlternatingRuns;
    var m := |rs| - 1;
    FlatSnoc(rs[..m], rs[m] + [op]);
    assert Flat(rs[..m]) + (rs[m] + [op]) == (Flat(rs[..m]) + rs[m]) + [op];
    LongerAlternates(rs, op);
  }

  lemma LongerAlternates(rs: seq<seq<RaftOp>>, op: RaftOp)
    requires AlternatingRuns(rs) && rs != [] && KindOf(rs[|rs| - 1][0]) == KindOf(op)
    ensures AlternatingRuns(rs[..|rs| - 1] + [rs[|rs| - 1] + [op]])
  {
    hide KindOf, IsRun;
    var m := |rs| - 1;
    var last := rs[m] + [op];
    SnocRun(rs[m], op);
    var rs' := rs[..m] + [last];
    assert last[0] == rs[m][0];
    forall i | 0 <= i < |rs'|
      ensures rs'[i] != [] && IsRun(rs'[i])
    {
      assert i < m ==> rs'[i] == rs[i];
    }
    forall i | 0 < i < |rs'|
      ensures KindOf(rs'[i - 1][0]) != KindOf(rs'[i][0])
    {
      assert rs'[i - 1] == rs[i - 1] && rs'[i][0] == rs[i][0];
    }
  }

  lemma SnocRun(run: seq<RaftOp>, op: RaftOp)
    requires IsRun(run) && KindOf(run[0]) == KindOf(op)
    ensures IsRun(run + [op])
  {
    hide KindOf;
  }

  lemma AnotherRun(rs: seq<seq<RaftOp>>, op: RaftOp)
    requires AlternatingRuns(rs) && (rs != [] ==> KindOf(rs[|rs| - 1][0]) != KindOf(op))
    ensures AlternatingRuns(rs + [[op]])
  {
    hide KindOf;
  }

  /** One order of record for each run of the batch. */
  ghost predicate BatchOrder(orders: seq<seq<RaftOp>>, ops: seq<RaftOp>) {
    |orders| == |Runs(ops)| && forall i :: 0 <= i < |orders| ==> RunOrder(orders[i], Runs(ops)[i])
  }

  predicate NoTxn(ops: seq<RaftOp>) {
    forall i :: 0 <= i < |ops| ==> !ops[i].Txn?
  }

  lemma KeyedDropped(s: State, ks: set<Key>, t: State)
    requires Keyed(s.kv) && IsDropped(s, ks, t)
    ensures Keyed(t.kv)
  {
  }

  lemma KeyedApply(s: State, op: RaftOp)
    requires Keyed(s.kv) && !op.Txn?
    ensures Keyed(Apply(s, op).kv)
  {
    hide IsDropped, DropAll, DoomedKeys, LeasedKeys;
    match op
    case Put(key, value, lease) =>
    case Delete(key, end) =>
      var ks := DoomedKeys(s.kv, key, end);
      DropAllExact(s, ks);
      KeyedDropped(s, KeySet(ks), DropAll(s, ks));
    case LeaseGrant(id) =>
    case LeaseRevoke(id) =>
      if id in s.leases {
        var t, ks := s.(leases := s.leases - {id}), LeasedKeys(s, id);
        DropAllExact(t, ks);
        KeyedDropped(t, KeySet(ks), DropAll(t, ks));
      }
    case Unknown(_) =>
  }

  lemma {:induction false} KeyedApplyAll(s: State, ops: seq<RaftOp>)
    requires Keyed(s.kv) && NoTxn(ops)
    ensures Keyed(ApplyAll(s, ops).kv)
  {
    hide Keyed, Apply;
    if ops != [] {
      KeyedApplyAll(s, ops[..|ops| - 1]);
      KeyedApply(ApplyAll(s, ops[..|ops| - 1]), ops[|ops| - 1]);
    }
  }

  lemma SameTransitive(a: State, b: State, c: State)
    requires SameUpToRevisions(a, b) && SameUpToRevisions(b, c)
    ensures SameUpToRevisions(a, c)
  {
  }

  lemma SameReflexive(a: State)
    ensures SameUpToRevisions(a, a)
  {
  }

  lemma RunUpToRevisions(s: State, run: seq<RaftOp>, order: seq<RaftOp>)
    requires IsRun(run) && RunOrder(order, run) && Keyed(s.kv)
    ensures SameUpToRevisions(ApplyAll(s, order), ApplyAll(s, run))
  {
    hide SameUpToRevisions, ApplyAll, IsMerge, Keyed;
    PutRunIsPuts(run);
    if KindOf(run[0]) == KPut {
      PutRunAgreement(s, run, order);
    } else {
      if KindOf(run[0]) == KDelete {
        DeleteRunExact(s, run, order);
      }
      SameReflexive(ApplyAll(s, run));
    }
  }

  lemma OrderNoTxn(order: seq<RaftOp>, run: seq<RaftOp>)
    requires IsRun(run) && RunOrder(order, run) && NoTxn(run)
    ensures NoTxn(order)
  {
    hide RunOrder, IsRun;
    RunOrderIsPermutation(order, run);
    forall i | 0 <= i < |order|
      ensures !order[i].Txn?
    {
      assert order[i] in multiset(order);
      assert order[i] in run;
    }
  }

  lemma FlatTail(rs: seq<seq<RaftOp>>)
    requires rs != []
    ensures Flat(rs) == Flat(rs[..|rs| - 1]) + rs[|rs| - 1]
  {
  }

  lemma NoTxnParts(a: seq<RaftOp>, b: seq<RaftOp>)
    requires NoTxn(a + b)
    ensures NoTxn(a) && NoTxn(b)
  {
    forall i | 0 <= i < |a|
      ensures !a[i].Txn?
    {
      assert (a + b)[i] == a[i];
    }
    forall i | 0 <= i < |b|
      ensures !b[i].Txn?
    {
      assert (a + b)[|a| + i] == b[i];
    }
  }

  ghost predicate Ordered(orders: seq<seq<RaftOp>>, rs: seq<seq<RaftOp>>) {
    |orders| == |rs| && forall i :: 0 <= i < |rs| ==> IsRun(rs[i]) && RunOrder(orders[i], rs[i])
  }

  lemma {:induction false} RunsUpToRevisions(s: State, rs: seq<seq<RaftOp>>, orders: seq<seq<RaftOp>>)
    requires Ordered(orders, rs) && Keyed(s.kv) && NoTxn(Flat(rs))
    ensures SameUpToRevisions(ApplyAll(s, Flat(orders)), ApplyAll(s, Flat(rs)))
    ensures NoTxn(Flat(orders))
  {
    hide SameUpToRevisions, ApplyAll, RunOrder, IsRun, NoTxn, Keyed;
    if rs == [] {
      SameReflexive(ApplyAll(s, []));
    } else {
      var n := |rs| - 1;
      var run, order := rs[n], orders[n];
      FlatTail(rs);
      FlatTail(orders);
      NoTxnParts(Flat(rs[..n]), run);
      RunsUpToRevisions(s, rs[..n], orders[..n]);
      var a, b := ApplyAll(s, Flat(orders[..n])), ApplyAll(s, Flat(rs[..n]));
      KeyedApplyAll(s, Flat(orders[..n]));
      RunUpToRevisions(a, run, order);
      SameApplyAllNoTxn(a, b, run);
      SameTransitive(ApplyAll(a, order), ApplyAll(a, run), ApplyAll(b, run));
      ApplyConcat(s, Flat(orders[..n]), order);
      ApplyConcat(s, Flat(rs[..n]), run);
      OrderNoTxn(order, run);
      NoTxnJoin(Flat(orders[..n]), order);
    }
  }

  lemma SameApplyAllNoTxn(a: State, b: State, ops: seq<RaftOp>)
    requires SameUpToRevisions(a, b) && NoTxn(ops)
    ensures SameUpToRevisions(ApplyAll(a, ops), ApplyAll(b, ops))
  {
    hide SameUpToRevisions, ApplyAll;
    SameApplyAll(a, b, ops);
  }

  lemma NoTxnJoin(a: seq<RaftOp>, b: seq<RaftOp>)
    requires NoTxn(a) && NoTxn(b)
    ensures NoTxn(a + b)
  {
  }

  lemma BatchOrderIsOrdered(orders: seq<seq<RaftOp>>, ops: seq<RaftOp>)
    requires BatchOrder(orders, ops)
    ensures Ordered(orders, Runs(ops)) && Flat(Runs(ops)) == ops
  {
    hide RunOrder, IsRun, Runs, Flat;
    RunsAreRuns(ops);
  }

  /**
   * A batch with no transaction ends, under every permitted order, in the keys, values, versions,
   * leases and counter that its operations would leave in log order.
   */
  lemma BatchUpToRevisions(s: State, ops: seq<RaftOp>, orders: seq<seq<RaftOp>>)
    requires BatchOrder(orders, ops) && Keyed(s.kv) && NoTxn(ops)
    ensures SameUpToRevisions(ApplyAll(s, Flat(orders)), ApplyAll(s, ops))
  {
    hide *;
    BatchOrderIsOrdered(orders, ops);
    RunsUpToRevisions(s, Runs(ops), orders);
  }

  /** Every run of puts stays within one shard. */
  predicate PutRunsOneShard(rs: seq<seq<RaftOp>>) {
    forall i :: 0 <= i < |rs| && rs[i] != [] && rs[i][0].Put? ==> OneShard(rs[i])
  }

  lemma {:induction false} RunsExact(s: State, rs: seq<seq<RaftOp>>, orders: seq<seq<RaftOp>>)
    requires Ordered(orders, rs) && PutRunsOneShard(rs)
    ensures ApplyAll(s, Flat(orders)) == ApplyAll(s, Flat(rs))
  {
    hide ApplyAll, OneShard, IsMerge;
    if rs != [] {
      var n := |rs| - 1;
      var run, order := rs[n], orders[n];
      FlatTail(rs);
      FlatTail(orders);
      RunsExact(s, rs[..n], orders[..n]);
      ApplyConcat(s, Flat(orders[..n]), order);
      ApplyConcat(s, Flat(rs[..n]), run);
      assert IsRun(run) && RunOrder(order, run);
      if run[0].Put? {
        OneShardOneOrder(order, run);
      } else if run[0].Delete? {
        DeleteRunExact(ApplyAll(s, Flat(rs[..n])), run, order);
      }
    }
  }

  /** Transactions included, the batch is exactly log order when each run of puts stays within one shard. */
  lemma BatchExact(s: State, ops: seq<RaftOp>, orders: seq<seq<RaftOp>>)
    requires BatchOrder(orders, ops) && PutRunsOneShard(Runs(ops))
    ensures ApplyAll(s, Flat(orders)) == ApplyAll(s, ops)
  {
    hide *;
    BatchOrderIsOrdered(orders, ops);
    RunsExact(s, Runs(ops), orders);
  }

  // ---------------------------------------------------------------- exactly when batches are deterministic

  lemma {:induction false} RunsAppend(xs: seq<RaftOp>, run: seq<RaftOp>)
    requires IsRun(run) && (Runs(xs) != [] ==> KindOf(Runs(xs)[|Runs(xs)| - 1][0]) != KindOf(run[0]))
    ensures Runs(xs + run) == Runs(xs) + [run]
  {
    hide KindOf, Runs;
    var n := |run| - 1;
    var pre, op := run[..n], run[n];
    assert run == pre + [op] && xs + run == (xs + pre) + [op];
    RunsSnoc(xs + pre, op);
    if n == 0 {
      assert xs + pre == xs && run == [op];
    } else {
      assert IsRun(pre) && pre[0] == run[0];
      RunsAppend(xs, pre);
      var rs := Runs(xs) + [pre];
      assert rs[|rs| - 1] == pre && rs[..|rs| - 1] == Runs(xs);
    }
  }

  /** Alternating runs are the runs of what they make up. */
  lemma {:induction false} RunsOfFlat(rs: seq<seq<RaftOp>>)
    requires AlternatingRuns(rs)
    ensures Runs(Flat(rs)) == rs
  {
    hide KindOf, Runs, IsRun;
    if rs == [] {
      NoRuns();
    } else {
      var n := |rs| - 1;
      RunsOfFlat(rs[..n]);
      RunsAppend(Flat(rs[..n]), rs[n]);
      assert rs[..n] + [rs[n]] == rs;
    }
  }

  lemma {:induction false} FlatPrefix(rs: seq<seq<RaftOp>>, i: nat)
    requires i <= |rs|
    ensures |Flat(rs[..i])| <= |Flat(rs)| && Flat(rs)[..|Flat(rs[..i])|] == Flat(rs[..i])
  {
    if i == |rs| {
      assert rs[..i] == rs;
    } else {
      FlatPrefix(rs[..|rs| - 1], i);
      assert rs[..|rs| - 1][..i] == rs[..i];
    }
  }

  lemma OneShardPrefix(run: seq<RaftOp>, op: RaftOp)
    requires OneShard(run + [op])
    ensures OneShard(run)
  {
    hide ShardOf;
    forall i, j | 0 <= i < |run| && 0 <= j < |run|
      ensures ShardOf(run[i]) == ShardOf(run[j])
    {
      assert (run + [op])[i] == run[i] && (run + [op])[j] == run[j];
    }
  }

  lemma OneShardBefore(pre: seq<RaftOp>, op: RaftOp)
    requires PutRunsOneShard(Runs(pre + [op]))
    ensures PutRunsOneShard(Runs(pre))
  {
    hide KindOf, Runs, OneShard;
    RunsSnoc(pre, op);
    var rs: seq<seq<RaftOp>>, rs': seq<seq<RaftOp>> := Runs(pre), Runs(pre + [op]);
    forall i | 0 <= i < |rs| && rs[i] != [] && rs[i][0].Put?
      ensures OneShard(rs[i])
    {
      if rs'[i] == rs[i] {
      } else {
        assert rs'[i] == rs[i] + [op] && rs'[i][0] == rs[i][0];
        OneShardPrefix(rs[i], op);
      }
    }
  }

  lemma {:induction false} OneShardPrefixes(ops: seq<RaftOp>, n: nat)
    requires n <= |ops| && PutRunsOneShard(Runs(ops))
    ensures PutRunsOneShard(Runs(ops[..n]))
  {
    hide Runs, PutRunsOneShard;
    if n == |ops| {
      assert ops[..n] == ops;
    } else {
      var m := |ops| - 1;
      assert ops == ops[..m] + [ops[m]];
      OneShardBefore(ops[..m], ops[m]);
      OneShardPrefixes(ops[..m], n);
      assert ops[..m][..n] == ops[..n];
    }
  }

  /** Every permitted order of the batch gives the state of log order. */
  ghost predicate OrdersAgree(s: State, ops: seq<RaftOp>) {
    forall orders :: BatchOrder(orders, ops) ==> ApplyAll(s, Flat(orders)) == ApplyAll(s, ops)
  }

  lemma InLogOrder(run: seq<RaftOp>)
    requires IsRun(run) && !run[0].Delete?
    ensures RunOrder(run, run)
  {
    hide OfShard;
  }

  /** A run of puts over two shards, last in its batch, tells schedules apart. */
  lemma LastRunDiffers(s: State, rs: seq<seq<RaftOp>>)
    requires AlternatingRuns(rs) && rs != [] && rs[|rs| - 1][0].Put? && !OneShard(rs[|rs| - 1])
    ensures !OrdersAgree(s, Flat(rs))
  {
    hide ApplyAll, OneShard, IsMerge, Runs, BatchOrder;
    var n := |rs| - 1;
    var pre, run := rs[..n], rs[n];
    RunIsPuts(run);
    var before := LogOrders(s, pre);
    var t := ApplyAll(s, Flat(pre));
    var order := TwoShardsDiffer(t, run);
    RunsOfFlat(rs);
    var orders := before + [order];
    OrdersSnoc(rs, before, order);
    FlatSnoc(before, order);
    ApplyConcat(s, Flat(before), order);
    ApplyConcat(s, Flat(pre), run);
    assert ApplyAll(s, Flat(orders)) != ApplyAll(s, Flat(rs));
  }

  lemma RunIsPuts(run: seq<RaftOp>)
    requires IsRun(run) && run[0].Put?
    ensures AllPut(run)
  {
    forall i | 0 <= i < |run|
      ensures run[i].Put?
    {
      assert KindOf(run[i]) == KPut;
    }
  }

  /** Some orders of the runs that give the state of log order. */
  lemma {:induction false} LogOrders(s: State, rs: seq<seq<RaftOp>>) returns (orders: seq<seq<RaftOp>>)
    requires AlternatingRuns(rs)
    ensures |orders| == |rs| && forall i :: 0 <= i < |rs| ==> RunOrder(orders[i], rs[i])
    ensures ApplyAll(s, Flat(orders)) == ApplyAll(s, Flat(rs))
  {
    hide ApplyAll, IsMerge, RunOrder, IsRun, KindOf;
    orders := [];
    if rs != [] {
      var n := |rs| - 1;
      var before := LogOrders(s, rs[..n]);
      var t := ApplyAll(s, Flat(rs[..n]));
      var order := LogOrder(t, rs[n]);
      orders := before + [order];
      FlatSnoc(before, order);
      FlatTail(rs);
      ApplyConcat(s, Flat(before), order);
      ApplyConcat(s, Flat(rs[..n]), rs[n]);
    }
  }

  lemma LogOrder(s: State, run: seq<RaftOp>) returns (order: seq<RaftOp>)
    requires IsRun(run)
    ensures RunOrder(order, run) && ApplyAll(s, order) == ApplyAll(s, run)
  {
    hide ApplyAll, IsMerge;
    if run[0].Delete? {
      order := Singles(run) + Ranges(run);
      SinglesFirst(run);
      DeleteRunExact(s, run, order);
    } else {
      order := run;
      InLogOrder(run);
    }
  }

  lemma SinglesFirst(run: seq<RaftOp>)
    requires IsRun(run) && run[0].Delete?
    ensures RunOrder(Singles(run) + Ranges(run), run)
  {
    hide OfShard;
    var n := |Singles(run)|;
    assert (Singles(run) + Ranges(run))[..n] == Singles(run) && (Singles(run) + Ranges(run))[n..] == Ranges(run);
  }

  lemma OrdersSnoc(rs: seq<seq<RaftOp>>, before: seq<seq<RaftOp>>, order: seq<RaftOp>)
    requires AlternatingRuns(rs) && rs != [] && Runs(Flat(rs)) == rs && |before| == |rs| - 1
    requires forall i :: 0 <= i < |before| ==> RunOrder(before[i], rs[i])
    requires RunOrder(order, rs[|rs| - 1])
    ensures BatchOrder(before + [order], Flat(rs))
  {
    hide RunOrder, IsRun, KindOf;
  }

  lemma SomePrefixDiffers(s: State, ops: seq<RaftOp>) returns (n: nat)
    requires !PutRunsOneShard(Runs(ops))
    ensures n <= |ops| && !OrdersAgree(s, ops[..n])
  {
    hide Runs, OneShard, OrdersAgree, AlternatingRuns, Flat;
    var rs: seq<seq<RaftOp>> := Runs(ops);
    var i: nat :| 0 <= i < |rs| && rs[i] != [] && rs[i][0].Put? && !OneShard(rs[i]);
    RunsAreRuns(ops);
    RunsPrefix(rs, i + 1);
    FlatPrefix(rs, i + 1);
    var bad := rs[..i + 1];
    assert bad[|bad| - 1] == rs[i];
    LastRunDiffers(s, bad);
    n := |Flat(bad)|;
  }

  lemma AlwaysLogOrder(s: State, ops: seq<RaftOp>)
    requires PutRunsOneShard(Runs(ops))
    ensures OrdersAgree(s, ops)
  {
    hide Runs, BatchOrder, ApplyAll, Flat, PutRunsOneShard;
    forall orders | BatchOrder(orders, ops)
      ensures ApplyAll(s, Flat(orders)) == ApplyAll(s, ops)
    {
      BatchExact(s, ops, orders);
    }
  }

  lemma RunsPrefix(rs: seq<seq<RaftOp>>, n: nat)
    requires AlternatingRuns(rs) && n <= |rs|
    ensures AlternatingRuns(rs[..n])
  {
  }
}

/** What ranges, deletions, comparisons and transactions of the etcd-style store mean, told by the stored
    entries and the order of the keys. */
module EtcdAnswers {
  import opened Bytes
  import opened EtcdSpec
  import BatchPool

  // ---------------------------------------------------------------- ranges

  /** The keys a request names: one key if its range end is empty, else every key from `key` on and below
      the end, where the end "\x00" leaves the interval open. */
  predicate Named(key: Key, end: Key, k: Key) {
    if end == [] then k == key else (k == key || Less(key, k)) && (end == [0] || Less(k, end))
  }

  /** kvs are the stored entries a request names, in ascending key order. */
  ghost predicate Listed(m: map<Key, KeyValue>, key: Key, end: Key, kvs: seq<KeyValue>) {
    exists ks :: NamedKeys(m, key, end, ks) && Shows(m, ks, kvs)
  }

  predicate Shows(m: map<Key, KeyValue>, ks: seq<Key>, kvs: seq<KeyValue>) {
    |ks| == |kvs| && forall i :: 0 <= i < |ks| ==> ks[i] in m && kvs[i] == m[ks[i]]
  }

  ghost predicate NamedKeys(m: map<Key, KeyValue>, key: Key, end: Key, ks: seq<Key>) {
    && (forall i, j :: 0 <= i < j < |ks| ==> Less(ks[i], ks[j]))
    && (forall k :: k in ks <==> k in m && Named(key, end, k))
  }

  lemma DoomedNamed(m: map<Key, KeyValue>, key: Key, end: Key)
    ensures NamedKeys(m, key, end, DoomedKeys(m, key, end))
  {
    hide Less;
  }

  lemma DoomedListed(m: map<Key, KeyValue>, key: Key, end: Key)
    ensures var ks := DoomedKeys(m, key, end);
            (forall i :: 0 <= i < |ks| ==> ks[i] in m) && Listed(m, key, end, ValuesOf(m, ks))
  {
    hide DoomedKeys, NamedKeys;
    DoomedNamed(m, key, end);
    DoomedPresent(m, key, end);
  }

  /** A range lists exactly the stored entries it names, in key order; a positive limit keeps that many
      from the front. */
  lemma RangeExact(s: State, key: Key, end: Key, limit: int)
    ensures var all, r := RangeAnswer(s, key, end, 0).kvs, RangeAnswer(s, key, end, limit);
            && Listed(s.kv, key, end, all)
            && r.kvs == (if 0 < limit < |all| then all[..limit] else all)
            && r == RangeResponse(r.kvs, false, |r.kvs|, s.rev)
  {
    hide Listed, IntervalKeys;
    DoomedListed(s.kv, key, end);
    if end == [] {
      assert RangeAnswer(s, key, end, 0).kvs == ValuesOf(s.kv, DoomedKeys(s.kv, key, end));
    }
  }

  /** The listing of a request is unique, so the answer to a range is determined by the stored entries. */
  lemma ListedOnce(m: map<Key, KeyValue>, key: Key, end: Key, a: seq<KeyValue>, b: seq<KeyValue>)
    requires Listed(m, key, end, a) && Listed(m, key, end, b)
    ensures a == b
  {
    hide NamedKeys;
    var p :| NamedKeys(m, key, end, p) && Shows(m, p, a);
    var q :| NamedKeys(m, key, end, q) && Shows(m, q, b);
    NamedOnce(m, key, end, p, q);
  }

  lemma NamedOnce(m: map<Key, KeyValue>, key: Key, end: Key, p: seq<Key>, q: seq<Key>)
    requires NamedKeys(m, key, end, p) && NamedKeys(m, key, end, q)
    ensures p == q
  {
    hide Less, Named;
    SortedUnique(p, q);
  }

  // ---------------------------------------------------------------- deletions

  /** t is s without the entries a request names: the others are as they were, and a key leaves the set of
      the lease its entry named, no other. */
  ghost predicate Swept(s: State, key: Key, end: Key, t: State) {
    && (forall k :: k in t.kv <==> k in s.kv && !Named(key, end, k))
    && (forall k :: k in t.kv ==> t.kv[k] == s.kv[k])
    && t.leases.Keys == s.leases.Keys
    && (forall l, k :: l in s.leases ==>
          (k in t.leases[l] <==> k in s.leases[l] && !Released(s, key, end, l, k)))
  }

  predicate Released(s: State, key: Key, end: Key, l: int, k: Key) {
    l != 0 && k in s.kv && s.kv[k].lease == l && Named(key, end, k)
  }

  lemma DroppedCount(s: State, ks: seq<Key>, t: State)
    requires Sorted(ks) && (forall k :: k in ks ==> k in s.kv) && t.kv == s.kv - KeySet(ks)
    ensures |s.kv| - |t.kv| == |ks|
  {
    SortedSize(ks);
    assert s.kv.Keys == t.kv.Keys + KeySet(ks) && t.kv.Keys !! KeySet(ks);
    assert |s.kv| == |s.kv.Keys| && |t.kv| == |t.kv.Keys|;
  }

  lemma DroppedSwept(s: State, key: Key, end: Key, ks: seq<Key>, t: State)
    requires NamedKeys(s.kv, key, end, ks) && IsDropped(s, KeySet(ks), t)
    ensures Swept(s, key, end, t)
  {
    hide Less, Named, DroppedFrom, Released;
    forall l, k | l in s.leases
      ensures k in t.leases[l] <==> k in s.leases[l] && !Released(s, key, end, l, k)
    {
      ReleasedIsDropped(s, key, end, ks, l, k);
      assert k in t.leases[l] <==> k in s.leases[l] && !DroppedFrom(s, KeySet(ks), l, k);
    }
  }

  lemma ReleasedIsDropped(s: State, key: Key, end: Key, ks: seq<Key>, l: int, k: Key)
    requires NamedKeys(s.kv, key, end, ks)
    ensures DroppedFrom(s, KeySet(ks), l, k) <==> Released(s, key, end, l, k)
  {
    hide Less, Named;
  }

  lemma SweptAtRev(s: State, key: Key, end: Key, t: State, r: int)
    requires Swept(s, key, end, t)
    ensures Swept(s, key, end, t.(rev := r))
  {
    hide Named;
  }

  lemma DoomedDropped(s: State, key: Key, end: Key)
    ensures var ks := DoomedKeys(s.kv, key, end);
            Swept(s, key, end, DropAll(s, ks)) && |ks| == |s.kv| - |DropAll(s, ks).kv|
  {
    hide DoomedKeys, NamedKeys, Swept, DropAll;
    var ks := DoomedKeys(s.kv, key, end);
    DoomedNamed(s.kv, key, end);
    DoomedPresent(s.kv, key, end);
    DropAllExact(s, ks);
    DroppedSwept(s, key, end, ks, DropAll(s, ks));
    DroppedCount(s, ks, DropAll(s, ks));
  }

  /** A deletion removes exactly the entries it names and draws one revision if there were any; its answer
      counts and lists them. The committed form removes the same and draws one revision for each. */
  lemma DeletionExact(s: State, key: Key, end: Key)
    ensures var t, r := DeleteOnce(s, key, end), OpAnswer(s, OpDelete(key, end));
            && Swept(s, key, end, t)
            && t.rev == s.rev + (if |t.kv| == |s.kv| then 0 else 1)
            && r.DeleteResponse? && r.deleted == |s.kv| - |t.kv| && r.rev == t.rev
            && Listed(s.kv, key, end, r.prevKvs)
            && DeleteDirect(s, key, end) == t.(rev := s.rev + |s.kv| - |t.kv|)
  {
    hide DoomedKeys, Swept, Listed, DropAll, ValuesOf;
    var ks := DoomedKeys(s.kv, key, end);
    DoomedDropped(s, key, end);
    DoomedListed(s.kv, key, end);
    SweptAtRev(s, key, end, DropAll(s, ks), s.rev + 1);
    DropNothing(s);
  }

  lemma DropNothing(s: State)
    ensures DropAll(s, []) == s
  {
  }

  lemma SweptListsNone(s: State, key: Key, end: Key, t: State)
    requires Swept(s, key, end, t)
    ensures Listed(t.kv, key, end, [])
  {
    hide Named;
    assert NamedKeys(t.kv, key, end, []);
  }

  /** Asked again right after the deletion, the same request lists nothing. */
  lemma DeletedIsGone(s: State, key: Key, end: Key, limit: int)
    ensures RangeAnswer(DeleteOnce(s, key, end), key, end, limit).kvs == []
  {
    hide DeleteOnce, RangeOf, Listed, Swept;
    var t := DeleteOnce(s, key, end);
    DeletionExact(s, key, end);
    RangeExact(t, key, end, limit);
    SweptListsNone(s, key, end, t);
    ListedOnce(t.kv, key, end, RangeAnswer(t, key, end, 0).kvs, []);
  }

  /** Two keys, the first of them the start of the interval: a range lists both and a deletion removes
      both. */
  lemma TwoKeysDeleted()
    ensures var s := PutDirect(PutDirect(InitState, [1], [10], 0), [2], [20], 0);
            && RangeAnswer(s, [1], [3], 0).kvs == [KeyValue([1], [10], 1, 1, 1, 0), KeyValue([2], [20], 2, 2, 1, 0)]
            && DeleteOnce(s, [1], [3]) == State(map[], 3, map[])
            && OpAnswer(s, OpDelete([1], [3])).deleted == 2
  {
    hide DeleteOnce, RangeOf, OpAnswer, PutDirect;
    TwoPuts();
    var s := PutDirect(PutDirect(InitState, [1], [10], 0), [2], [20], 0);
    BothDeleted(s);
    BothAnswered(s);
  }

  lemma BothDeleted(s: State)
    requires s.kv.Keys == {[1], [2]} && s.leases == map[]
    ensures DeleteOnce(s, [1], [3]) == State(map[], s.rev + 1, map[]) && OpAnswer(s, OpDelete([1], [3])).deleted == 2
  {
    hide DeleteOnce, OpAnswer, Listed, Swept;
    DeletionExact(s, [1], [3]);
    BothSwept(s, DeleteOnce(s, [1], [3]));
  }

  lemma BothAnswered(s: State)
    requires s.kv.Keys == {[1], [2]}
    ensures RangeAnswer(s, [1], [3], 0).kvs == [s.kv[[1]], s.kv[[2]]]
  {
    hide RangeOf, Listed;
    RangeExact(s, [1], [3], 0);
    BothListed(s.kv);
    ListedOnce(s.kv, [1], [3], RangeAnswer(s, [1], [3], 0).kvs, [s.kv[[1]], s.kv[[2]]]);
  }

  lemma TwoPuts()
    ensures var s := PutDirect(PutDirect(InitState, [1], [10], 0), [2], [20], 0);
            s == State(map[[1] := KeyValue([1], [10], 1, 1, 1, 0), [2] := KeyValue([2], [20], 2, 2, 1, 0)], 2, map[])
  {
  }

  lemma BothSwept(s: State, t: State)
    requires s.kv.Keys == {[1], [2]} && s.leases == map[] && Swept(s, [1], [3], t)
    ensures t.kv == map[] && t.leases == map[] && |s.kv| == 2 && |t.kv| == 0
  {
    hide Named;
    BothListed(s.kv);
    assert t.kv.Keys == {} && |s.kv| == |s.kv.Keys|;
  }

  lemma BothListed(m: map<Key, KeyValue>)
    requires m.Keys == {[1], [2]}
    ensures Listed(m, [1], [3], [m[[1]], m[[2]]]) && Named([1], [3], [1]) && Named([1], [3], [2])
  {
    assert NamedKeys(m, [1], [3], [[1], [2]]);
  }

  // ---------------------------------------------------------------- comparisons

  /** The entry a comparison looks at: a missing key compares as zeros and an empty value. */
  function Compared(m: map<Key, KeyValue>, k: Key): KeyValue {
    if k in m then m[k] else KeyValue(k, [], 0, 0, 0, 0)
  }

  /** Each target equals exactly one number, that field of the entry; greater holds for the smaller numbers,
      less for the larger ones, not-equal for all others. Values compare in byte order. */
  lemma ComparesFields(m: map<Key, KeyValue>, k: Key, n: int, v: seq<byte>)
    ensures var kv := Compared(m, k);
            && (Holds(m, Compare(k, CompareVersion(n), CompareEqual)) <==> n == kv.version)
            && (Holds(m, Compare(k, CompareCreate(n), CompareEqual)) <==> n == kv.createRev)
            && (Holds(m, Compare(k, CompareMod(n), CompareEqual)) <==> n == kv.modRev)
            && (Holds(m, Compare(k, CompareLease(n), CompareEqual)) <==> n == kv.lease)
            && (Holds(m, Compare(k, CompareValue(v), CompareEqual)) <==> v == kv.value)
            && (Holds(m, Compare(k, CompareVersion(n), CompareGreater)) <==> n < kv.version)
            && (Holds(m, Compare(k, CompareCreate(n), CompareGreater)) <==> n < kv.createRev)
            && (Holds(m, Compare(k, CompareMod(n), CompareGreater)) <==> n < kv.modRev)
            && (Holds(m, Compare(k, CompareLease(n), CompareGreater)) <==> n < kv.lease)
            && (Holds(m, Compare(k, CompareValue(v), CompareGreater)) <==> Less(v, kv.value))
  {
    hide Less;
  }

  /** On every target exactly one of less, equal and greater holds, and not-equal is the other two. */
  lemma ComparesTrichotomy(m: map<Key, KeyValue>, k: Key, t: Target)
    ensures var eq, lt, gt := Holds(m, Compare(k, t, CompareEqual)), Holds(m, Compare(k, t, CompareLess)),
                              Holds(m, Compare(k, t, CompareGreater));
            && (eq || lt || gt) && !(eq && lt) && !(eq && gt) && !(lt && gt)
            && (Holds(m, Compare(k, t, CompareNotEqual)) <==> lt || gt)
  {
    hide Less;
    if t.CompareValue? {
      var v := Compared(m, k).value;
      LessTotal(v, t.value);
      LessIrreflexive(v);
      if Less(v, t.value) {
        LessAsymmetric(v, t.value);
      }
    }
  }

  // ---------------------------------------------------------------- transactions

  /** One operation done: the state after it and its response, by the stored entries alone. */
  ghost predicate Done(s: State, op: Op, t: State, r: OpResponse) {
    match op
    case OpRange(key, end, limit) =>
      t == s && exists all :: Listed(s.kv, key, end, all) && r == RangeShown(all, limit, s.rev)
    case OpPut(key, value, lease) =>
      var prev := if key in s.kv then Some(s.kv[key]) else None;
      && t.kv == s.kv[key := KeyValue(key, value, if prev.Some? then prev.value.createRev else s.rev + 1, s.rev + 1,
                                      if prev.Some? then prev.value.version + 1 else 1, lease)]
      && t.rev == s.rev + 1
      && t.leases == (if lease != 0 && lease in s.leases then s.leases[lease := s.leases[lease] + {key}] else s.leases)
      && r == PutResponse(prev, t.rev)
    case OpDelete(key, end) =>
      && Swept(s, key, end, t) && t.rev == s.rev + (if |t.kv| == |s.kv| then 0 else 1)
      && r.DeleteResponse? && r.deleted == |s.kv| - |t.kv| && r.rev == t.rev && Listed(s.kv, key, end, r.prevKvs)
  }

  function RangeShown(all: seq<KeyValue>, limit: int, rev: int): OpResponse {
    var kvs := if 0 < limit < |all| then all[..limit] else all;
    RangeResponse(kvs, false, |kvs|, rev)
  }

  lemma OpDone(s: State, op: Op)
    ensures Done(s, op, OpEffect(s, op), OpAnswer(s, op))
  {
    hide Listed, Swept, DeleteOnce, RangeOf;
    match op
    case OpRange(key, end, limit) =>
      RangeExact(s, key, end, limit);
      assert RangeAnswer(s, key, end, limit) == RangeShown(RangeAnswer(s, key, end, 0).kvs, limit, s.rev);
    case OpPut(_, _, _) =>
    case OpDelete(key, end) => DeletionExact(s, key, end);
  }

  /** A put that names a lease which is not in the table or has expired. */
  predicate Refused(s: State, expired: set<int>, op: Op) {
    op.OpPut? && op.lease != 0 && (op.lease !in s.leases || op.lease in expired)
  }

  /** The operations ran one after the other through these states; all of them, or up to one that is
      refused. */
  ghost predicate Trace(s: State, expired: set<int>, ops: seq<Op>, states: seq<State>, o: Outcome) {
    && |states| == |o.responses| + 1 && |o.responses| <= |ops|
    && states[0] == s && states[|o.responses|] == o.state
    && (forall i :: 0 <= i < |o.responses| ==>
          !Refused(states[i], expired, ops[i]) && Done(states[i], ops[i], states[i + 1], o.responses[i]))
    && (o.ok <==> |o.responses| == |ops|)
    && (!o.ok ==> Refused(o.state, expired, ops[|o.responses|]))
  }

  lemma TraceNext(s: State, expired: set<int>, ops: seq<Op>, op: Op, states: seq<State>, o: Outcome)
    requires Trace(s, expired, ops, states, o) && o.ok && !Refused(o.state, expired, op)
    ensures Trace(s, expired, ops + [op], states + [OpEffect(o.state, op)],
                  Outcome(OpEffect(o.state, op), true, o.responses + [OpAnswer(o.state, op)]))
  {
    hide Done, OpEffect, OpAnswer, Refused;
    OpDone(o.state, op);
    var n := |ops|;
    var all, rs, ss := ops + [op], o.responses + [OpAnswer(o.state, op)], states + [OpEffect(o.state, op)];
    forall i | 0 <= i < n + 1
      ensures !Refused(ss[i], expired, all[i]) && Done(ss[i], all[i], ss[i + 1], rs[i])
    {
      if i < n {
        assert ss[i] == states[i] && ss[i + 1] == states[i + 1] && rs[i] == o.responses[i] && all[i] == ops[i];
      }
    }
  }

  lemma {:induction false} OpsTrace(s: State, expired: set<int>, ops: seq<Op>) returns (states: seq<State>)
    ensures Trace(s, expired, ops, states, RunOps(s, expired, ops))
  {
    hide Done, OpEffect, OpAnswer;
    if ops == [] {
      states := [s];
    } else {
      var pre, op := ops[..|ops| - 1], ops[|ops| - 1];
      assert ops == pre + [op];
      var o := RunOps(s, expired, pre);
      states := OpsTrace(s, expired, pre);
      if o.ok && OpAllowed(o.state, expired, op) {
        TraceNext(s, expired, pre, op, states, o);
        states := states + [OpEffect(o.state, op)];
      } else {
        TraceStops(s, expired, pre, op, states, o);
      }
    }
  }

  lemma TraceStops(s: State, expired: set<int>, ops: seq<Op>, op: Op, states: seq<State>, o: Outcome)
    requires Trace(s, expired, ops, states, o) && (o.ok ==> Refused(o.state, expired, op))
    ensures Trace(s, expired, ops + [op], states, o.(ok := false))
  {
    hide Done, Refused;
    assert forall i :: 0 <= i < |ops| ==> (ops + [op])[i] == ops[i];
  }

  /** A comparison met by the stored entry of its key. */
  predicate Meets(m: map<Key, KeyValue>, c: Compare) {
    var kv := Compared(m, c.key);
    match c.target
    case CompareVersion(n) => InOrder(c.result, kv.version < n, n < kv.version)
    case CompareCreate(n) => InOrder(c.result, kv.createRev < n, n < kv.createRev)
    case CompareMod(n) => InOrder(c.result, kv.modRev < n, n < kv.modRev)
    case CompareValue(v) => InOrder(c.result, Less(kv.value, v), Less(v, kv.value))
    case CompareLease(n) => InOrder(c.result, kv.lease < n, n < kv.lease)
  }

  predicate InOrder(r: CompareResult, below: bool, above: bool) {
    match r
    case CompareEqual => !below && !above
    case CompareGreater => above
    case CompareLess => below
    case CompareNotEqual => below || above
  }

  lemma HoldsMeets(m: map<Key, KeyValue>, c: Compare)
    ensures Holds(m, c) <==> Meets(m, c)
  {
    hide Less;
    if c.target.CompareValue? {
      LessTotal(Compared(m, c.key).value, c.target.value);
      LessIrreflexive(Compared(m, c.key).value);
    }
  }

  /** A transaction takes its first branch exactly when every comparison is met, runs the operations of
      that branch in order, each seeing what the ones before it left, and fails exactly at a put under a
      lease that cannot be used, with the operations before it in place. */
  lemma TxnExact(s: State, expired: set<int>, compares: seq<Compare>, thenOps: seq<Op>, elseOps: seq<Op>)
    returns (states: seq<State>, o: Outcome)
    ensures var met := forall i :: 0 <= i < |compares| ==> Meets(s.kv, compares[i]);
            && Trace(s, expired, if met then thenOps else elseOps, states, o)
            && TxnEffect(s, expired, compares, thenOps, elseOps) == o.state
            && TxnAnswer(s, expired, compares, thenOps, elseOps) ==
               (if o.ok then TxnOk(met, o.responses, o.state.rev) else TxnError)
  {
    hide Holds, Meets, Trace;
    forall i | 0 <= i < |compares|
      ensures Holds(s.kv, compares[i]) <==> Meets(s.kv, compares[i])
    {
      HoldsMeets(s.kv, compares[i]);
    }
    var ops := Chosen(s, compares, thenOps, elseOps);
    o := RunOps(s, expired, ops);
    states := OpsTrace(s, expired, ops);
  }

  // ---------------------------------------------------------------- committed operations

  /** t is what a committed operation leaves of s. A put does what a put in a transaction does, without
      asking for its lease; a deletion removes what it names and draws one revision for each entry; a
      transaction runs the branch whose comparisons are met; an unknown operation does nothing. */
  ghost predicate Committed(s: State, op: BatchPool.RaftOp, t: State) {
    match op
    case Put(key, value, lease) => exists r :: Done(s, OpPut(key, value, lease), t, r)
    case Delete(key, end) => Swept(s, key, end, t) && t.rev - s.rev == |s.kv| - |t.kv|
    case Txn(compares, thenOps, elseOps, expired) =>
      exists states, o :: Trace(s, expired, Taken(s, compares, thenOps, elseOps), states, o) && o.state == t
    case LeaseGrant(_) => t.kv == s.kv && t.rev == s.rev
    case LeaseRevoke(_) => t.rev - s.rev == |s.kv| - |t.kv|
    case Unknown(_) => t == s
  }

  lemma PutCommitted(s: State, op: BatchPool.RaftOp)
    requires op.Put?
    ensures Committed(s, op, BatchPool.Apply(s, op))
  {
    hide Done;
    OpDone(s, OpPut(op.key, op.value, op.lease));
  }

  lemma DeleteCommitted(s: State, op: BatchPool.RaftOp)
    requires op.Delete?
    ensures Committed(s, op, BatchPool.Apply(s, op))
  {
    hide Swept, DeleteDirect, DeleteOnce, Listed, OpAnswer;
    DeletionExact(s, op.key, op.end);
    var once := DeleteOnce(s, op.key, op.end);
    SweptAtRev(s, op.key, op.end, once, s.rev + |s.kv| - |once.kv|);
  }

  lemma TxnCommitted(s: State, op: BatchPool.RaftOp)
    requires op.Txn?
    ensures Committed(s, op, BatchPool.Apply(s, op))
  {
    hide Trace, TxnEffect, Meets;
    var states, o := TxnExact(s, op.expired, op.compares, op.thenOps, op.elseOps);
    assert Trace(s, op.expired, Taken(s, op.compares, op.thenOps, op.elseOps), states, o);
  }

  /** Every committed operation does just that. */
  lemma CommittedExact(s: State, op: BatchPool.RaftOp)
    ensures Committed(s, op, BatchPool.Apply(s, op))
  {
    if op.LeaseGrant? || op.LeaseRevoke? || op.Unknown? {
      hide LeasedKeys, DropAll;
      if op.LeaseRevoke? && op.id in s.leases {
        RevokedCount(s, op.id);
      }
    } else {
      hide Committed, BatchPool.Apply;
      match op
      case Put(_, _, _) => PutCommitted(s, op);
      case Delete(_, _) => DeleteCommitted(s, op);
      case Txn(_, _, _, _) => TxnCommitted(s, op);
    }
  }

  /** The branch whose comparisons are met. */
  function Taken(s: State, compares: seq<Compare>, thenOps: seq<Op>, elseOps: seq<Op>): seq<Op> {
    if forall i :: 0 <= i < |compares| ==> Meets(s.kv, compares[i]) then thenOps else elseOps
  }

  lemma RevokedCount(s: State, id: int)
    requires id in s.leases
    ensures var t := RevokeDirect(s, id); t.rev - s.rev == |s.kv| - |t.kv|
  {
    hide DropAll;
    var ks, bare := LeasedKeys(s, id), s.(leases := s.leases - {id});
    DropAllExact(bare, ks);
    DroppedCount(bare, ks, DropAll(bare, ks));
  }
}

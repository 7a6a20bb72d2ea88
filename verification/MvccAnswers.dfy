/** What ranges, conditions and responses of the multi-version store mean, told by point reads, by the
    replay of the history, and by the order of the keys. */
module MvccAnswers {
  import opened Bytes
  import opened Revisions
  import opened MvccSpec
  import opened MvccTheorems
  import opened MvccRuns
  import opened MvccReads

  // ---------------------------------------------------------------- range reads

  /** The keys of ks that hold a value, in order. */
  function Holding(log: seq<Entry>, ks: seq<Key>, at: Revision): seq<Key> {
    if ks == [] then []
    else
      var k := ks[|ks| - 1];
      Holding(log, ks[..|ks| - 1], at) + (if StoreReadAt(log, k, at).Some? then [k] else [])
  }

  lemma {:induction false} HoldingExact(log: seq<Entry>, ks: seq<Key>, at: Revision)
    requires Sorted(ks)
    ensures Sorted(Holding(log, ks, at))
    ensures forall k :: k in Holding(log, ks, at) <==> k in ks && StoreReadAt(log, k, at).Some?
  {
    hide StoreReadAt, Less;
    if ks != [] {
      var n := |ks| - 1;
      HoldingExact(log, ks[..n], at);
      assert ks == ks[..n] + [ks[n]];
      var pre := Holding(log, ks[..n], at);
      forall i | 0 <= i < |pre|
        ensures Less(pre[i], ks[n])
      {
        assert pre[i] in pre;
      }
    }
  }

  lemma {:induction false} HoldingValues(log: seq<Entry>, ks: seq<Key>, at: Revision)
    ensures var hs, all := Holding(log, ks, at), StoreReadAll(log, ks, at);
            |hs| == |all| && forall i :: 0 <= i < |hs| ==> StoreReadAt(log, hs[i], at) == Some(all[i])
  {
    hide StoreReadAt;
    if ks != [] {
      HoldingValues(log, ks[..|ks| - 1], at);
    }
  }

  lemma {:induction false} ReadKeyInLog(log: seq<Entry>, k: Key, at: Revision)
    ensures LastAt(log, k, at).Some? ==> k in LogKeys(log)
  {
    if log != [] {
      var n := |log| - 1;
      ReadKeyInLog(log[..n], k, at);
      assert log == log[..n] + [log[n]];
    }
  }

  /** An unlimited range read lists, in ascending key order, what point reads of the keys of the
      half-open interval return: every key from the start on and, if there is an end, below it. */
  lemma RangeIsListing(m: Machine, start: Key, end: Option<Key>, rev: int) returns (ks: seq<Key>)
    requires StoreRange(m, start, end, rev, 0).Ok?
    ensures var all := StoreRange(m, start, end, rev, 0).value;
            && (forall i, j :: 0 <= i < j < |ks| ==> Less(ks[i], ks[j]))
            && |ks| == |all| && (forall i :: 0 <= i < |ks| ==> StoreGet(m, ks[i], rev) == Ok(all[i]))
    ensures forall k :: k in ks <==>
              StoreGet(m, k, rev).Ok? && (k == start || Less(start, k)) && (end.Some? ==> Less(k, end.value))
  {
    hide *;
    var at, cover := ReadRev(m, rev), RangeKeys(LogKeys(m.log), start, end);
    ks := Holding(m.log, cover, at);
    CoverSorted(LogKeys(m.log), start, end);
    HoldingExact(m.log, cover, at);
    HoldingValues(m.log, cover, at);
    RangeUncut(m, start, end, rev);
    SortedMeans(ks);
    forall k
      ensures k in ks <==>
              StoreGet(m, k, rev).Ok? && (k == start || Less(start, k)) && (end.Some? ==> Less(k, end.value))
    {
      ReadIs(m, start, end, rev, k);
      ReadKeyInLog(m.log, k, at);
      CoverMember(LogKeys(m.log), start, end, k);
    }
    forall i | 0 <= i < |ks|
      ensures StoreGet(m, ks[i], rev) == Ok(StoreRange(m, start, end, rev, 0).value[i])
    {
      assert ks[i] in ks;
      ReadIs(m, start, end, rev, ks[i]);
      CoverMember(LogKeys(m.log), start, end, ks[i]);
    }
  }

  lemma CoverMember(keys: set<Key>, start: Key, end: Option<Key>, k: Key)
    ensures k in RangeKeys(keys, start, end) <==>
            k in keys && (k == start || Less(start, k)) && (end.Some? ==> Less(k, end.value))
  {
    hide Less, Ascending;
    var s := set k | k in keys && InRange(k, start, end);
    assert k in Ascending(s) <==> k in s;
  }

  lemma CoverSorted(keys: set<Key>, start: Key, end: Option<Key>)
    ensures Sorted(RangeKeys(keys, start, end))
  {
    hide Less, Ascending, InRange, Sorted;
  }

  lemma SortedMeans(ks: seq<Key>)
    requires Sorted(ks)
    ensures forall i, j :: 0 <= i < j < |ks| ==> Less(ks[i], ks[j])
  {
    hide Less;
  }

  /** What a range that goes through is made of. */
  lemma RangeUncut(m: Machine, start: Key, end: Option<Key>, rev: int)
    requires StoreRange(m, start, end, rev, 0).Ok?
    ensures StoreRange(m, start, end, rev, 0).value ==
            StoreReadAll(m.log, RangeKeys(LogKeys(m.log), start, end), ReadRev(m, rev))
  {
    hide StoreReadAll, RangeKeys, LogKeys;
  }

  /** Next to it, a point read of a key from the start on fails only when there is nothing to read. */
  lemma ReadIs(m: Machine, start: Key, end: Option<Key>, rev: int, k: Key)
    requires StoreRange(m, start, end, rev, 0).Ok?
    ensures k == start || Less(start, k) ==>
              StoreGet(m, k, rev) == match StoreReadAt(m.log, k, ReadRev(m, rev)) case None => Err(KeyNotFound) case Some(kv) => Ok(kv)
    ensures StoreReadAt(m.log, k, ReadRev(m, rev)).Some? ==> LastAt(m.log, k, ReadRev(m, rev)).Some?
  {
    hide StoreReadAll, RangeKeys, LogKeys, LastAt, StoreOf;
  }

  /** A KeyValue is in the unlimited answer exactly when some key of the interval reads as it. */
  lemma RangeMembers(m: Machine, start: Key, end: Option<Key>, rev: int, kv: KeyValue)
    requires StoreRange(m, start, end, rev, 0).Ok?
    ensures kv in StoreRange(m, start, end, rev, 0).value <==>
            exists k :: StoreGet(m, k, rev) == Ok(kv) && (k == start || Less(start, k)) && (end.Some? ==> Less(k, end.value))
  {
    hide Less, StoreRange, StoreGet;
    var ks := RangeIsListing(m, start, end, rev);
    var all := StoreRange(m, start, end, rev, 0).value;
    if kv in all {
      var i :| 0 <= i < |all| && all[i] == kv;
      assert ks[i] in ks && StoreGet(m, ks[i], rev) == Ok(kv);
    }
    if exists k :: StoreGet(m, k, rev) == Ok(kv) && (k == start || Less(start, k)) && (end.Some? ==> Less(k, end.value)) {
      var k :| StoreGet(m, k, rev) == Ok(kv) && (k == start || Less(start, k)) && (end.Some? ==> Less(k, end.value));
      assert k in ks;
      var i :| 0 <= i < |ks| && ks[i] == k;
      assert all[i] == kv;
    }
  }

  /** A positive limit keeps that many values from the front; errors are those of a point read of the start. */
  lemma RangeLimited(m: Machine, start: Key, end: Option<Key>, rev: int, limit: int)
    ensures var all, r := StoreRange(m, start, end, rev, 0), StoreRange(m, start, end, rev, limit);
            if all.Err? then r == all && StoreGet(m, start, rev) == Err(all.error) && all.error != KeyNotFound
            else r.Ok? && r.value == (if 0 < limit < |all.value| then all.value[..limit] else all.value)
                 && (StoreGet(m, start, rev).Ok? || StoreGet(m, start, rev) == Err(KeyNotFound))
  {
    hide StoreReadAll, StoreReadAt, RangeKeys, LogKeys;
  }

  // ---------------------------------------------------------------- range deletes

  lemma SweepLive(live: map<Key, KeyValue>, start: Key, end: Option<Key>, base: Revision)
    ensures var after := LiveAfter(live, DeleteEvents(RangeKeys(live.Keys, start, end), base));
            && (forall k :: k in after <==> k in live && !((k == start || Less(start, k)) && (end.Some? ==> Less(k, end.value))))
            && (forall k :: k in after ==> after[k] == live[k])
            && |RangeKeys(live.Keys, start, end)| == |live| - |after|
  {
    hide Less, LiveAfter, DeleteEvents;
    var ks := RangeKeys(live.Keys, start, end);
    var after := LiveAfter(live, DeleteEvents(ks, base));
    DeletesLeave(live, ks, base);
    SweepKeeps(live, ks, base);
    var gone := set k | k in live.Keys && InRange(k, start, end);
    assert |ks| == |gone|;
    assert live.Keys == after.Keys + gone && after.Keys !! gone;
    assert |live| == |live.Keys| && |after| == |after.Keys|;
  }

  lemma {:induction false} SweepKeeps(live: map<Key, KeyValue>, ks: seq<Key>, base: Revision)
    ensures var after := LiveAfter(live, DeleteEvents(ks, base)); forall k :: k in after ==> k in live && after[k] == live[k]
  {
    if ks != [] {
      var n := |ks| - 1;
      assert DeleteEvents(ks, base)[..n] == DeleteEvents(ks[..n], base);
      SweepKeeps(live, ks[..n], base);
    }
  }

  /** A range delete removes exactly the open keys of the half-open interval, leaves the others as they
      are, and counts what it removed. */
  lemma DeleteRangeRemoves(m: Machine, start: Key, end: Option<Key>)
    requires start != []
    ensures var after := Step(m, CDeleteRange(start, end)).live;
            && (forall k :: k in after <==> k in m.live && !((k == start || Less(start, k)) && (end.Some? ==> Less(k, end.value))))
            && (forall k :: k in after ==> after[k] == m.live[k])
            && |RangeKeys(m.live.Keys, start, end)| == |m.live| - |after|
  {
    hide Less, LiveAfter, DeleteEvents, Entries;
    SweepLive(m.live, start, end, Revision(m.cur.main + 1, 0));
  }

  /** Two keys, one of them the start of the interval: a bounded range lists both and a bounded range
      delete removes both. The end itself stays out. */
  lemma BoundedRange()
    ensures var m := Run(PutOneAndTwo);
            && StoreRange(m, [1], Some([3]), 0, 0) == Ok([KeyValue([1], [10], 1, 1, 1, 0), KeyValue([2], [20], 2, 2, 1, 0)])
            && StoreRange(m, [1], Some([2]), 0, 0) == Ok([KeyValue([1], [10], 1, 1, 1, 0)])
            && Step(m, CDeleteRange([1], Some([3]))).live == map[]
            && Step(m, CDeleteRange([1], Some([2]))).live.Keys == {[2]}
  {
    hide StoreRange, StoreGet, Step, Run;
    var m := Run(PutOneAndTwo);
    OneAndTwoLog();
    OneAndTwoReads();
    OneAndTwoListed([1], Some([3]));
    OneAndTwoListed([1], Some([2]));
    DeleteRangeRemoves(m, [1], Some([3]));
    DeleteRangeRemoves(m, [1], Some([2]));
    assert !Less([2], [2]) && Less([2], [3]);
    assert Step(m, CDeleteRange([1], Some([3]))).live.Keys == {};
  }

  lemma OneAndTwoReads()
    ensures var m := Run(PutOneAndTwo);
            && StoreGet(m, [1], 0) == Ok(KeyValue([1], [10], 1, 1, 1, 0))
            && StoreGet(m, [2], 0) == Ok(KeyValue([2], [20], 2, 2, 1, 0))
            && forall k :: StoreGet(m, k, 0).Ok? ==> k == [1] || k == [2]
  {
    hide Run, StoreReadAt;
    OneAndTwoLog();
    var log := Run(PutOneAndTwo).log;
    forall k
      ensures StoreReadAt(log, k, Revision(2, 0)) ==
              if k == [2] then Some(log[1].kv) else if k == [1] then Some(log[0].kv) else None
    {
      TwoEntries(log[0], log[1], k, Revision(2, 0));
    }
  }

  lemma TwoEntries(a: Entry, b: Entry, k: Key, at: Revision)
    requires a.rev.LessThan(b.rev) && b.rev.AtMost(at) && a.kv.key != b.kv.key && a.kv.version > 0 && b.kv.version > 0
    ensures StoreReadAt([a, b], k, at) ==
            if k == b.kv.key then Some(b.kv) else if k == a.kv.key then Some(a.kv) else None
  {
    assert [a, b][..1] == [a] && [a][..0] == [];
    assert StoreOf([a]) == map[a.rev := a.kv];
    assert LastAt([a], k, at) == if k == a.kv.key then Some(a) else None;
    assert StoreOf([a, b]) == map[a.rev := a.kv, b.rev := b.kv];
  }

  lemma OneAndTwoListed(start: Key, end: Option<Key>)
    requires start == [1] && end.Some?
    ensures var m := Run(PutOneAndTwo); var r := StoreRange(m, start, end, 0, 0);
            && r.Ok?
            && (Less([2], end.value) ==> r.value == [KeyValue([1], [10], 1, 1, 1, 0), KeyValue([2], [20], 2, 2, 1, 0)])
            && (end.value == [2] ==> r.value == [KeyValue([1], [10], 1, 1, 1, 0)])
  {
    hide StoreRange, StoreGet, Run;
    var m := Run(PutOneAndTwo);
    OneAndTwoReads();
    RangeLimited(m, start, end, 0, 0);
    var ks := RangeIsListing(m, start, end, 0);
    assert Less([1], [2]) && !Less([2], [2]) && !Less([2], [1]);
    if Less([2], end.value) {
      assert Less([1], end.value);
      assert [1] in ks && [2] in ks;
      TwoSorted(ks);
    } else if end.value == [2] {
      assert [1] in ks && [2] !in ks;
      OneSorted(ks);
    }
  }

  lemma TwoSorted(ks: seq<Key>)
    requires forall i, j :: 0 <= i < j < |ks| ==> Less(ks[i], ks[j])
    requires [1] in ks && [2] in ks && forall k :: k in ks ==> k == [1] || k == [2]
    ensures ks == [[1], [2]]
  {
    var i :| 0 <= i < |ks| && ks[i] == [1];
    var j :| 0 <= j < |ks| && ks[j] == [2];
    assert Less([1], [2]) && !Less([2], [1]) && !Less([1], [1]) && !Less([2], [2]);
    assert ks[0] in ks && ks[|ks| / 2] in ks && ks[|ks| - 1] in ks;
  }

  lemma OneSorted(ks: seq<Key>)
    requires forall i, j :: 0 <= i < j < |ks| ==> Less(ks[i], ks[j])
    requires [1] in ks && forall k :: k in ks ==> k == [1]
    ensures ks == [[1]]
  {
    assert !Less([1], [1]);
    assert ks[0] in ks && ks[|ks| - 1] in ks;
  }

  // ---------------------------------------------------------------- conditions

  /** The record a key's conditions are compared with: what a replay gives, or zeros and an empty value. */
  function Compared(kv: Option<KeyValue>): KeyValue {
    if kv.Some? then kv.value else KeyValue([], [], 0, 0, 0, 0)
  }

  lemma HoldsOver(live: map<Key, KeyValue>, k: Key, n: int, v: seq<byte>, kv: KeyValue)
    requires kv == Compared(if k in live then Some(live[k]) else None)
    ensures Holds(live, IntCondition(k, Version, IsEqual, n)) <==> n == kv.version
    ensures Holds(live, IntCondition(k, CreateRev, IsEqual, n)) <==> n == kv.createRev
    ensures Holds(live, IntCondition(k, ModRev, IsEqual, n)) <==> n == kv.modRev
    ensures Holds(live, ValueCondition(k, IsEqual, v)) <==> v == kv.value
    ensures forall t, x :: Holds(live, IntCondition(k, t, IsEqual, x)) ==>
              && (Holds(live, IntCondition(k, t, IsLess, n)) <==> x < n)
              && (Holds(live, IntCondition(k, t, IsGreater, n)) <==> n < x)
              && (Holds(live, IntCondition(k, t, IsNotEqual, n)) <==> n != x)
    ensures Holds(live, ValueCondition(k, IsLess, v)) <==> Less(kv.value, v)
    ensures Holds(live, ValueCondition(k, IsGreater, v)) <==> Less(v, kv.value)
    ensures Holds(live, ValueCondition(k, IsNotEqual, v)) <==> v != kv.value
  {
    hide Less;
  }

  lemma LiveReplayed(cs: seq<Command>, k: Key)
    requires NoCompaction(cs)
    ensures var live := Run(cs).live; Replay(RefRun(cs).hist, k) == if k in live then Some(live[k]) else None
  {
    hide Run, RefRun, Replay;
    RunSimulates(cs);
    LiveIsReplay(RefRun(cs).hist, k);
  }

  /** After every compaction-free run, each target equals exactly one number: that field of the replayed
      KeyValue, 0 if there is none. The smaller numbers are those it is greater than, the larger ones those
      it is less than, and not-equal is the rest. Values compare the same way in byte order. */
  lemma ConditionsCompareReplay(cs: seq<Command>, k: Key, n: int, v: seq<byte>)
    requires NoCompaction(cs)
    ensures var live, kv := Run(cs).live, Compared(Replay(RefRun(cs).hist, k));
            && (Holds(live, IntCondition(k, Version, IsEqual, n)) <==> n == kv.version)
            && (Holds(live, IntCondition(k, CreateRev, IsEqual, n)) <==> n == kv.createRev)
            && (Holds(live, IntCondition(k, ModRev, IsEqual, n)) <==> n == kv.modRev)
            && (Holds(live, ValueCondition(k, IsEqual, v)) <==> v == kv.value)
            && (forall t, x :: Holds(live, IntCondition(k, t, IsEqual, x)) ==>
                  && (Holds(live, IntCondition(k, t, IsLess, n)) <==> x < n)
                  && (Holds(live, IntCondition(k, t, IsGreater, n)) <==> n < x)
                  && (Holds(live, IntCondition(k, t, IsNotEqual, n)) <==> n != x))
            && (Holds(live, ValueCondition(k, IsLess, v)) <==> Less(kv.value, v))
            && (Holds(live, ValueCondition(k, IsGreater, v)) <==> Less(v, kv.value))
            && (Holds(live, ValueCondition(k, IsNotEqual, v)) <==> v != kv.value)
  {
    hide Run, RefRun, Replay, Holds, Less;
    LiveReplayed(cs, k);
    HoldsOver(Run(cs).live, k, n, v, Compared(Replay(RefRun(cs).hist, k)));
  }

  /** A condition agrees with the record of its key: the comparison, written out per target. */
  predicate Meets(kv: KeyValue, c: Condition) {
    match c
    case IntCondition(_, Version, cmp, n) => InOrder(cmp, kv.version < n, n < kv.version)
    case IntCondition(_, CreateRev, cmp, n) => InOrder(cmp, kv.createRev < n, n < kv.createRev)
    case IntCondition(_, ModRev, cmp, n) => InOrder(cmp, kv.modRev < n, n < kv.modRev)
    case ValueCondition(_, cmp, v) => InOrder(cmp, Less(kv.value, v), Less(v, kv.value))
  }

  predicate InOrder(cmp: Comparison, below: bool, above: bool) {
    match cmp
    case IsEqual => !below && !above
    case IsNotEqual => below || above
    case IsLess => below
    case IsGreater => above
  }

  lemma HoldsMeets(live: map<Key, KeyValue>, c: Condition)
    ensures Holds(live, c) <==> Meets(Compared(if c.key in live then Some(live[c.key]) else None), c)
  {
    hide Less;
    if c.ValueCondition? {
      var actual := Compared(if c.key in live then Some(live[c.key]) else None).value;
      LessTotal(actual, c.bytes);
      LessIrreflexive(actual);
    }
  }

  /** A transaction takes its Then operations exactly when every condition agrees with what the history
      says of its key. */
  lemma TxnBranch(cs: seq<Command>, c: Command)
    requires NoCompaction(cs) && c.CTxn?
    ensures ChosenOps(Run(cs).live, c) ==
            if forall i :: 0 <= i < |c.conds| ==> Meets(Compared(Replay(RefRun(cs).hist, c.conds[i].key)), c.conds[i])
            then c.thenOps else c.elseOps
  {
    hide Run, RefRun, Replay, Holds, Meets;
    forall i | 0 <= i < |c.conds|
      ensures Holds(Run(cs).live, c.conds[i]) <==>
              Meets(Compared(Replay(RefRun(cs).hist, c.conds[i].key)), c.conds[i])
    {
      LiveReplayed(cs, c.conds[i].key);
      HoldsMeets(Run(cs).live, c.conds[i]);
    }
  }

  /** Compare and swap on the modification revision: after two puts of a key the condition on revision 2
      holds, so the Then operations are taken. */
  lemma CompareAndSwap(k: Key, v: seq<byte>, w: seq<byte>, l: int, thenOps: seq<Op>, elseOps: seq<Op>)
    requires k != []
    ensures var m := Run([CPut(k, v, l), CPut(k, w, l)]);
            && m.live == map[k := KeyValue(k, w, 1, 2, 2, l)]
            && ChosenOps(m.live, CTxn([IntCondition(k, ModRev, IsEqual, 2)], thenOps, elseOps)) == thenOps
            && ChosenOps(m.live, CTxn([IntCondition(k, CreateRev, IsEqual, 2)], thenOps, elseOps)) == elseOps
            && ChosenOps(m.live, CTxn([IntCondition(k, Version, IsGreater, 1)], thenOps, elseOps)) == thenOps
  {
    hide Run, Step;
    var a, b := CPut(k, v, l), CPut(k, w, l);
    RunOne(a);
    RunSnoc([a], b);
    assert [a] + [b] == [a, b];
    StepOne(Init, a, Event(Revision(1, 0), k, Put(v, l)));
    StepOne(Run([a]), b, Event(Revision(2, 0), k, Put(w, l)));
    var live, no := Run([a, b]).live, IntCondition(k, CreateRev, IsEqual, 2);
    assert !Holds(live, no) && [no][0] == no;
  }

  // ---------------------------------------------------------------- commands, key by key

  /** What one operation at a main revision does to the record of key x. */
  function After(op: Op, kv: Option<KeyValue>, x: Key, main: int): Option<KeyValue> {
    match op
    case PutOp(k, v, l) =>
      if x != k then kv
      else if kv.None? then Some(KeyValue(x, v, main, main, 1, l))
      else Some(KeyValue(x, v, kv.value.createRev, main, kv.value.version + 1, l))
    case GetOp(_, _) => kv
    case DeleteOp(k) => if x == k then None else kv
    case DeleteRangeOp(k, end) => if (x == k || Less(k, x)) && (end.Some? ==> Less(x, end.value)) then None else kv
  }

  /** The same for the first n operations of a transaction. */
  function AfterOps(ops: seq<Op>, n: nat, kv: Option<KeyValue>, x: Key, main: int): Option<KeyValue>
    requires n <= |ops|
  {
    if n == 0 then kv else After(ops[n - 1], AfterOps(ops, n - 1, kv, x, main), x, main)
  }

  function At(live: map<Key, KeyValue>, x: Key): Option<KeyValue> {
    if x in live then Some(live[x]) else None
  }

  lemma OpAtKey(live: map<Key, KeyValue>, op: Op, rev: Revision, x: Key)
    ensures At(LiveAfter(live, OpEvents(live, op, rev)), x) == After(op, At(live, x), x, rev.main)
  {
    hide Less, DeleteEvents, RangeKeys, LiveAfter;
    match op {
      case PutOp(k, v, l) => LiveOne(live, Event(rev, k, Put(v, l)));
      case GetOp(_, _) => LiveNone(live);
      case DeleteOp(k) =>
        LiveOne(live, Event(rev, k, Delete));
        LiveNone(live);
      case DeleteRangeOp(k, end) => SweepLive(live, k, end, rev);
    }
  }

  lemma LiveOne(live: map<Key, KeyValue>, e: Event)
    ensures LiveAfter(live, [e]) == LiveAfter1(live, e)
  {
    assert [e][..0] == [];
  }

  lemma LiveNone(live: map<Key, KeyValue>)
    ensures LiveAfter(live, []) == live
  {
  }

  lemma {:induction false} TxnAtKey(live: map<Key, KeyValue>, ops: seq<Op>, main: int, n: nat, x: Key)
    requires n <= |ops|
    ensures At(LiveAfter(live, TxnEvents(live, ops, main, n)), x) == AfterOps(ops, n, At(live, x), x, main)
  {
    hide LiveAfter, OpEvents, After, TxnEvents, At;
    if n == 0 {
      NoTxnEvents(live, ops, main);
      LiveNone(live);
    } else {
      var before := TxnEvents(live, ops, main, n - 1);
      TxnAtKey(live, ops, main, n - 1, x);
      TxnUnfold(live, ops, main, n, before);
      LiveAfterConcat(live, before, OpEvents(LiveAfter(live, before), ops[n - 1], Revision(main, n - 1)));
      OpAtKey(LiveAfter(live, before), ops[n - 1], Revision(main, n - 1), x);
    }
  }

  lemma NoTxnEvents(live: map<Key, KeyValue>, ops: seq<Op>, main: int)
    ensures TxnEvents(live, ops, main, 0) == []
  {
  }

  /** What a command does to the record of key x. An empty key, and an empty start of a range, change
      nothing; a transaction does what its chosen operations do, in order. */
  function AfterCommand(c: Command, ops: seq<Op>, kv: Option<KeyValue>, x: Key, main: int): Option<KeyValue> {
    match c
    case CPut(k, v, l) => if k == [] then kv else After(PutOp(k, v, l), kv, x, main)
    case CDelete(k) => if k == [] then kv else After(DeleteOp(k), kv, x, main)
    case CDeleteRange(start, end) => if start == [] then kv else After(DeleteRangeOp(start, end), kv, x, main)
    case CTxn(_, _, _) => AfterOps(ops, |ops|, kv, x, main)
    case CCompact(_) => kv
  }

  lemma CommandAtKey(m: Machine, c: Command, x: Key)
    requires !c.CCompact?
    ensures At(Step(m, c).live, x) ==
            AfterCommand(c, if c.CTxn? then ChosenOps(m.live, c) else [], At(m.live, x), x, m.cur.main + 1)
  {
    hide Less, DeleteEvents, RangeKeys, LiveAfter, After, AfterOps, ChosenOps, At, TxnEvents, Entries;
    var main := m.cur.main + 1;
    LiveNone(m.live);
    match c {
      case CPut(k, v, l) => OpAtKey(m.live, PutOp(k, v, l), Revision(main, 0), x);
      case CDelete(k) => DeleteAtKey(m, k, x);
      case CDeleteRange(start, end) => OpAtKey(m.live, DeleteRangeOp(start, end), Revision(main, 0), x);
      case CTxn(_, _, _) => var ops := ChosenOps(m.live, c); TxnAtKey(m.live, ops, main, |ops|, x);
    }
  }

  lemma DeleteAtKey(m: Machine, k: Key, x: Key)
    ensures At(Step(m, CDelete(k)).live, x) == if k == [] then At(m.live, x) else After(DeleteOp(k), At(m.live, x), x, m.cur.main + 1)
  {
    hide Entries;
    OpAtKey(m.live, DeleteOp(k), Revision(m.cur.main + 1, 0), x);
  }

  /** Every command of every compaction-free run changes the replayed record of every key as written down
      in AfterCommand, its branch decided by comparing the replayed records. */
  lemma CommandsMean(cs: seq<Command>, c: Command, x: Key)
    requires NoCompaction(cs + [c])
    ensures var h, h' := RefRun(cs).hist, RefRun(cs + [c]).hist;
            var ops := if c.CTxn? then (if AllMeet(h, c.conds) then c.thenOps else c.elseOps) else [];
            Replay(h', x) == AfterCommand(c, ops, Replay(h, x), x, RefRun(cs).cur.main + 1)
  {
    hide Run, RefRun, Replay, Step, AfterCommand, Meets, ChosenOps;
    assert (cs + [c])[..|cs|] == cs && (cs + [c])[|cs|] == c;
    RunSimulates(cs);
    RunSnoc(cs, c);
    LiveReplayed(cs, x);
    LiveReplayed(cs + [c], x);
    CommandAtKey(Run(cs), c, x);
    if c.CTxn? {
      TxnBranch(cs, c);
    }
  }

  ghost predicate AllMeet(h: seq<Event>, conds: seq<Condition>) {
    forall i :: 0 <= i < |conds| ==> Meets(Compared(Replay(h, conds[i].key)), conds[i])
  }

  // ---------------------------------------------------------------- responses of a transaction

  /** ks is the ascending list of the keys of an interval that the history left in place. */
  ghost predicate Lists(h: seq<Event>, start: Key, end: Option<Key>, ks: seq<Key>) {
    && (forall i, j :: 0 <= i < j < |ks| ==> Less(ks[i], ks[j]))
    && (forall k :: k in ks <==>
          Replay(h, k).Some? && (k == start || Less(start, k)) && (end.Some? ==> Less(k, end.value)))
  }

  ghost predicate Reads(h: seq<Event>, ks: seq<Key>, kvs: seq<KeyValue>) {
    |ks| == |kvs| && forall i :: 0 <= i < |ks| ==> Replay(h, ks[i]) == Some(kvs[i])
  }

  /** The response to an operation is right for the history it ran on: a get answers with the replayed
      record, a range get with those of its interval in key order, a delete with the number of keys it
      found. */
  ghost predicate Answers(h: seq<Event>, op: Op, r: Response) {
    match op
    case PutOp(_, _, _) => r == Response([], 0)
    case GetOp(k, None) => r == Response(if Replay(h, k).Some? then [Replay(h, k).value] else [], 0)
    case GetOp(k, Some(end)) =>
      r.deleted == 0 && exists ks :: Lists(h, k, Some(end), ks) && Reads(h, ks, r.kvs)
    case DeleteOp(k) => r == Response([], if Replay(h, k).Some? then 1 else 0)
    case DeleteRangeOp(k, end) => r.kvs == [] && exists ks :: Lists(h, k, end, ks) && |ks| == r.deleted
  }

  lemma {:induction false} PresentListed(live: map<Key, KeyValue>, ks: seq<Key>)
    requires forall k :: k in ks ==> k in live && live[k].version > 0
    ensures |PresentKvs(live, ks)| == |ks| && forall i :: 0 <= i < |ks| ==> PresentKvs(live, ks)[i] == live[ks[i]]
  {
    if ks != [] {
      PresentListed(live, ks[..|ks| - 1]);
      assert ks == ks[..|ks| - 1] + [ks[|ks| - 1]];
    }
  }

  lemma ReplayedAt(h: seq<Event>, k: Key)
    ensures var live := LiveAfter(map[], h); Replay(h, k) == At(live, k) && (k in live ==> live[k].version >= 1)
  {
    LiveIsReplay(h, k);
  }

  lemma RangeListed(h: seq<Event>, start: Key, end: Option<Key>)
    ensures Lists(h, start, end, RangeKeys(LiveAfter(map[], h).Keys, start, end))
  {
    hide Less, LiveAfter, Replay, RangeKeys, Sorted;
    var keys := LiveAfter(map[], h).Keys;
    CoverSorted(keys, start, end);
    SortedMeans(RangeKeys(keys, start, end));
    forall k
      ensures k in RangeKeys(keys, start, end) <==>
              Replay(h, k).Some? && (k == start || Less(start, k)) && (end.Some? ==> Less(k, end.value))
    {
      ReplayedAt(h, k);
      CoverMember(keys, start, end, k);
    }
  }

  lemma OpAnswers(h: seq<Event>, op: Op)
    ensures Answers(h, op, OpResponse(LiveAfter(map[], h), op))
  {
    hide LiveAfter, Replay, RangeKeys, Lists;
    var live := LiveAfter(map[], h);
    ReplayedAt(h, op.key);
    match op {
      case GetOp(k, Some(end)) =>
        var ks := RangeKeys(live.Keys, k, Some(end));
        RangeListed(h, k, Some(end));
        forall x | x in ks
          ensures x in live && live[x].version > 0 && Replay(h, x) == Some(live[x])
        {
          ListedHeld(h, k, Some(end), ks, x);
          ReplayedAt(h, x);
        }
        PresentListed(live, ks);
      case DeleteRangeOp(k, end) => RangeListed(h, k, end);
      case _ =>
    }
  }

  lemma ListedHeld(h: seq<Event>, start: Key, end: Option<Key>, ks: seq<Key>, x: Key)
    requires Lists(h, start, end, ks) && x in ks
    ensures Replay(h, x).Some?
  {
  }

  lemma {:induction false} ResponseIs(live: map<Key, KeyValue>, ops: seq<Op>, main: int, n: nat, i: nat)
    requires i < n <= |ops|
    ensures |TxnResponses(live, ops, main, n)| == n
    ensures TxnResponses(live, ops, main, n)[i] == OpResponse(LiveAfter(live, TxnEvents(live, ops, main, i)), ops[i])
  {
    hide OpResponse, LiveAfter, TxnEvents;
    if n == 1 {
      assert TxnResponses(live, ops, main, 0) == [];
    } else if i < n - 1 {
      ResponseIs(live, ops, main, n - 1, i);
    } else {
      ResponseIs(live, ops, main, n - 1, 0);
    }
  }

  /** Every response of a transaction is the right answer over the history before it extended by what the
      transaction's earlier operations wrote. */
  lemma TxnAnswers(cs: seq<Command>, c: Command, i: nat)
    requires NoCompaction(cs) && c.CTxn? && i < |ChosenOps(Run(cs).live, c)|
    ensures var live, ops, main := Run(cs).live, ChosenOps(Run(cs).live, c), Run(cs).cur.main + 1;
            var rs := TxnResponses(live, ops, main, |ops|);
            |rs| == |ops| && Answers(RefRun(cs).hist + TxnEvents(live, ops, main, i), ops[i], rs[i])
  {
    hide Run, RefRun, LiveAfter, TxnEvents, TxnResponses, OpResponse, Answers, ChosenOps;
    var live, ops, main := Run(cs).live, ChosenOps(Run(cs).live, c), Run(cs).cur.main + 1;
    var h, es := RefRun(cs).hist, TxnEvents(live, ops, main, i);
    RunSimulates(cs);
    LiveAfterConcat(map[], h, es);
    ResponseIs(live, ops, main, |ops|, i);
    OpAnswers(h + es, ops[i]);
  }

  /** That extension is what the earlier operations do, key by key. */
  lemma TxnHistoryMeans(cs: seq<Command>, c: Command, i: nat, x: Key)
    requires NoCompaction(cs) && c.CTxn? && i <= |ChosenOps(Run(cs).live, c)|
    ensures var live, ops, main := Run(cs).live, ChosenOps(Run(cs).live, c), Run(cs).cur.main + 1;
            Replay(RefRun(cs).hist + TxnEvents(live, ops, main, i), x) ==
            AfterOps(ops, i, Replay(RefRun(cs).hist, x), x, main)
  {
    hide Run, RefRun, LiveAfter, TxnEvents, ChosenOps, Replay, AfterOps;
    var live, ops, main := Run(cs).live, ChosenOps(Run(cs).live, c), Run(cs).cur.main + 1;
    var h, es := RefRun(cs).hist, TxnEvents(live, ops, main, i);
    RunSimulates(cs);
    LiveAfterConcat(map[], h, es);
    ReplayedAt(h + es, x);
    ReplayedAt(h, x);
    TxnAtKey(live, ops, main, i, x);
  }

  lemma CommitAnswers(cs: seq<Command>, c: Command)
    requires NoCompaction(cs) && c.CTxn?
    ensures (forall i :: 0 <= i < |c.conds| ==> Holds(Run(cs).live, c.conds[i])) <==> AllMeet(RefRun(cs).hist, c.conds)
    ensures Step(Run(cs), c).cur.main == Run(cs).cur.main + 1
    ensures var live, ops, main := Run(cs).live, ChosenOps(Run(cs).live, c), Run(cs).cur.main + 1;
            var rs := TxnResponses(live, ops, main, |ops|);
            |rs| == |ops| && forall i :: 0 <= i < |ops| ==>
              Answers(RefRun(cs).hist + TxnEvents(live, ops, main, i), ops[i], rs[i])
  {
    hide Run, RefRun, LiveAfter, TxnEvents, TxnResponses, Answers, Holds, Meets, Replay, Entries;
    var live, ops, main := Run(cs).live, ChosenOps(Run(cs).live, c), Run(cs).cur.main + 1;
    NoResponses(live, ops, main);
    forall i | 0 <= i < |ops|
      ensures var rs := TxnResponses(live, ops, main, |ops|);
              |rs| == |ops| && Answers(RefRun(cs).hist + TxnEvents(live, ops, main, i), ops[i], rs[i])
    {
      TxnAnswers(cs, c, i);
    }
    if ops != [] {
      TxnAnswers(cs, c, 0);
    }
    forall i | 0 <= i < |c.conds|
      ensures Holds(live, c.conds[i]) <==> Meets(Compared(Replay(RefRun(cs).hist, c.conds[i].key)), c.conds[i])
    {
      LiveReplayed(cs, c.conds[i].key);
      HoldsMeets(live, c.conds[i]);
    }
  }

  lemma NoResponses(live: map<Key, KeyValue>, ops: seq<Op>, main: int)
    ensures TxnResponses(live, ops, main, 0) == []
  {
  }

  // ---------------------------------------------------------------- revisions drawn

  /** The command leaves something behind: a put of a key, a delete of an open key, a range delete whose
      interval has an open key, any transaction. */
  predicate Draws(live: map<Key, KeyValue>, c: Command) {
    match c
    case CPut(k, _, _) => k != []
    case CDelete(k) => k != [] && k in live
    case CDeleteRange(start, end) =>
      start != [] && exists k :: k in live && (k == start || Less(start, k)) && (end.Some? ==> Less(k, end.value))
    case CTxn(_, _, _) => true
    case CCompact(_) => false
  }

  /** A command moves the revision on by one if it leaves something behind and not at all otherwise; only a
      range delete leaves the sub-revision above 0, at one less than the number of keys it removed. */
  lemma RevisionDrawn(m: Machine, c: Command)
    ensures var m' := Step(m, c);
            if !Draws(m.live, c) then m'.cur == m.cur
            else m'.cur.main == m.cur.main + 1 && m'.cur.sub == (if c.CDeleteRange? then |m.live| - |m'.live| - 1 else 0)
  {
    hide Less, LiveAfter, DeleteEvents, Entries, TxnEvents, LiveOfLog, Retained;
    if c.CDeleteRange? && c.start != [] {
      DeleteRangeRemoves(m, c.start, c.end);
      RangeKeysSome(m.live.Keys, c.start, c.end);
    }
  }

  lemma RangeKeysSome(keys: set<Key>, start: Key, end: Option<Key>)
    ensures RangeKeys(keys, start, end) != [] <==>
            exists k :: k in keys && (k == start || Less(start, k)) && (end.Some? ==> Less(k, end.value))
  {
    hide Less;
    var ks := RangeKeys(keys, start, end);
    if ks != [] {
      assert ks[0] in ks;
    }
    if k :| k in keys && (k == start || Less(start, k)) && (end.Some? ==> Less(k, end.value)) {
      assert k in ks;
    }
  }

  lemma {:induction false} CompactedAtSubZero(cs: seq<Command>)
    ensures Run(cs).compacted.sub == 0 && 0 <= Run(cs).cur.sub
  {
    hide LiveAfter, Entries, LiveOfLog, Retained, RangeKeys;
    if cs != [] {
      CompactedAtSubZero(cs[..|cs| - 1]);
    }
  }

  /** After every run a compaction takes effect exactly when its target is above the last one and no later
      than the current revision; it then becomes the compacted revision. */
  lemma CompactionAccepted(cs: seq<Command>, rev: int)
    ensures var m, m' := Run(cs), Step(Run(cs), CCompact(rev));
            if m.compacted.main < rev <= m.cur.main then m'.compacted == Revision(rev, 0) && m'.cur == m.cur
            else m' == m
  {
    hide Run;
    CompactedAtSubZero(cs);
  }
}

/** What a read at the current revision sees right after a transaction.

    A transaction leaves the revision generator at sub-revision 0, so a read at revision 0 sees of it
    no more than the event at sub-revision 0. */
module MvccCurrent {
  import opened Bytes
  import opened Revisions
  import opened MvccSpec
  import opened MvccTheorems
  import opened MvccRuns
  import opened MvccReads

  // ---------------------------------------------------------------- what operations do to one key

  /** What operations leave of a key: nothing, what was there, or a value written by so many puts,
      counted from where the key was last created. */
  datatype End = Absent | Same | Written(value: seq<byte>, lease: int, puts: nat, created: bool)

  function StartEnd(present: bool): End { if present then Same else Absent }

  function AfterPut(e: End, value: seq<byte>, lease: int): End {
    match e
    case Absent => Written(value, lease, 1, true)
    case Same => Written(value, lease, 1, false)
    case Written(_, _, puts, created) => Written(value, lease, puts + 1, created)
  }

  function AfterOp(e: End, op: Op, k: Key): End {
    match op
    case PutOp(x, v, l) => if x == k then AfterPut(e, v, l) else e
    case GetOp(_, _) => e
    case DeleteOp(x) => if x == k then Absent else e
    case DeleteRangeOp(s, end) => if InRange(k, s, end) then Absent else e
  }

  /** What the first n operations leave of k. */
  function EndOf(present: bool, ops: seq<Op>, n: nat, k: Key): End
    requires n <= |ops|
  {
    if n == 0 then StartEnd(present) else AfterOp(EndOf(present, ops, n - 1, k), ops[n - 1], k)
  }

  /** What the event at sub-revision 0 alone leaves of k: operation 0, and of a range delete only its
      first key. */
  function FirstEnd(keys: set<Key>, ops: seq<Op>, k: Key): End {
    var start := StartEnd(k in keys);
    if ops == [] then start
    else if ops[0].DeleteRangeOp? then
      var doomed := RangeKeys(keys, ops[0].key, ops[0].end);
      if doomed != [] && doomed[0] == k then Absent else start
    else AfterOp(start, ops[0], k)
  }

  function NamedKeys(ops: seq<Op>): set<Key> {
    set i | 0 <= i < |ops| :: ops[i].key
  }

  /** For every key it may touch, all the operations leave what the event at sub-revision 0 leaves. */
  predicate SeenAtOnce(keys: set<Key>, ops: seq<Op>) {
    forall k | k in keys + NamedKeys(ops) :: k == [] || EndOf(k in keys, ops, |ops|, k) == FirstEnd(keys, ops, k)
  }

  lemma {:induction false} UntouchedEnd(keys: set<Key>, ops: seq<Op>, n: nat, k: Key)
    requires n <= |ops| && k !in keys && k !in NamedKeys(ops)
    ensures EndOf(k in keys, ops, n, k) == Absent && FirstEnd(keys, ops, k) == Absent
  {
    if n > 0 {
      UntouchedEnd(keys, ops, n - 1, k);
      assert ops[n - 1].key in NamedKeys(ops);
    }
    if ops != [] {
      assert ops[0].key in NamedKeys(ops);
    }
  }

  lemma SeenAtOnceEverywhere(keys: set<Key>, ops: seq<Op>)
    ensures SeenAtOnce(keys, ops) <==> forall k :: k != [] ==> EndOf(k in keys, ops, |ops|, k) == FirstEnd(keys, ops, k)
  {
    hide EndOf, FirstEnd, NamedKeys;
    forall k | k !in keys && k !in NamedKeys(ops)
      ensures EndOf(k in keys, ops, |ops|, k) == FirstEnd(keys, ops, k)
    {
      UntouchedEnd(keys, ops, |ops|, k);
    }
  }

  // ---------------------------------------------------------------- the KeyValue an end stands for

  function Look(live: map<Key, KeyValue>, k: Key): Option<KeyValue> {
    if k in live then Some(live[k]) else None
  }

  /** Only keys that were there can be left alone or counted on. */
  predicate EndOk(present: bool, e: End) {
    match e
    case Absent => true
    case Same => present
    case Written(_, _, puts, created) => 1 <= puts && (created || present)
  }

  function EndKv(live: map<Key, KeyValue>, main: int, e: End, k: Key): Option<KeyValue>
    requires EndOk(k in live, e)
  {
    match e
    case Absent => None
    case Same => Some(live[k])
    case Written(v, l, puts, created) =>
      Some(KeyValue(k, v, if created then main else live[k].createRev, main, if created then puts else live[k].version + puts, l))
  }

  lemma {:induction false} EndOfOk(present: bool, ops: seq<Op>, n: nat, k: Key)
    requires n <= |ops|
    ensures EndOk(present, EndOf(present, ops, n, k))
  {
    if n > 0 {
      EndOfOk(present, ops, n - 1, k);
    }
  }

  /** Older than the transaction. */
  predicate Before(live: map<Key, KeyValue>, main: int) {
    forall k :: k in live ==> live[k].createRev < main && live[k].modRev < main
  }

  lemma EndsApart(live: map<Key, KeyValue>, main: int, a: End, b: End, k: Key)
    requires Before(live, main) && EndOk(k in live, a) && EndOk(k in live, b)
    ensures EndKv(live, main, a, k) == EndKv(live, main, b, k) <==> a == b
  {
  }

  /** The state of k after some events of the transaction. */
  predicate EndIs(live: map<Key, KeyValue>, main: int, now: map<Key, KeyValue>, e: End, k: Key) {
    EndOk(k in live, e) && Look(now, k) == EndKv(live, main, e, k)
  }

  lemma {:induction false} DeletesLook(now: map<Key, KeyValue>, ks: seq<Key>, base: Revision, k: Key)
    ensures Look(LiveAfter(now, DeleteEvents(ks, base)), k) == if k in ks then None else Look(now, k)
  {
    if ks != [] {
      var n := |ks| - 1;
      assert DeleteEvents(ks, base)[..n] == DeleteEvents(ks[..n], base);
      DeletesLook(now, ks[..n], base, k);
      assert ks == ks[..n] + [ks[n]];
    }
  }

  lemma OneLook(now: map<Key, KeyValue>, e: Event, k: Key)
    ensures Look(LiveAfter(now, [e]), k) == if e.key != k then Look(now, k) else if e.write.Delete? then None else Some(NewKv(now, e))
    ensures LiveAfter(now, []) == now
  {
    assert [e][..0] == [];
  }

  lemma OpEnd(live: map<Key, KeyValue>, main: int, now: map<Key, KeyValue>, e: End, op: Op, rev: Revision, k: Key)
    requires EndIs(live, main, now, e, k) && rev.main == main
    ensures EndIs(live, main, LiveAfter(now, OpEvents(now, op, rev)), AfterOp(e, op, k), k)
  {
    hide LiveAfter, DeleteEvents;
    match op
    case PutOp(x, v, l) => OneLook(now, Event(rev, x, Put(v, l)), k);
    case GetOp(_, _) => OneLook(now, Event(rev, k, Delete), k);
    case DeleteOp(x) => OneLook(now, Event(rev, x, Delete), k);
    case DeleteRangeOp(s, end) => DeletesLook(now, RangeKeys(now.Keys, s, end), rev, k);
  }

  lemma {:induction false} EndOfIs(live: map<Key, KeyValue>, ops: seq<Op>, main: int, n: nat, k: Key)
    requires n <= |ops|
    ensures EndIs(live, main, LiveAfter(live, TxnEvents(live, ops, main, n)), EndOf(k in live, ops, n, k), k)
  {
    hide LiveAfter, TxnEvents, OpEvents, AfterOp;
    if n == 0 {
      NothingYet(live, ops, main);
    } else {
      var es := TxnEvents(live, ops, main, n - 1);
      EndOfIs(live, ops, main, n - 1, k);
      TxnUnfold(live, ops, main, n, es);
      var now, rev := LiveAfter(live, es), Revision(main, n - 1);
      LiveAfterConcat(live, es, OpEvents(now, ops[n - 1], rev));
      OpEnd(live, main, now, EndOf(k in live, ops, n - 1, k), ops[n - 1], rev, k);
    }
  }

  // ---------------------------------------------------------------- the visible event

  lemma {:induction false} VisibleConcat(a: seq<Event>, b: seq<Event>, at: Revision)
    ensures Visible(a + b, at) == Visible(a, at) + Visible(b, at)
  {
    if b == [] {
      assert a + b == a;
    } else {
      var n := |b| - 1;
      assert (a + b)[..|a + b| - 1] == a + b[..n];
      VisibleConcat(a, b[..n], at);
    }
  }

  lemma {:induction false} OnlyFirstVisible(es: seq<Event>, at: Revision)
    requires forall p :: 0 < p < |es| ==> !es[p].rev.AtMost(at)
    ensures Visible(es, at) == if es != [] && es[0].rev.AtMost(at) then [es[0]] else []
  {
    if |es| > 1 {
      OnlyFirstVisible(es[..|es| - 1], at);
    } else if |es| == 1 {
      assert es[..0] == [];
    }
  }

  /** At most the first event of operation 0. */
  function FirstEvents(live: map<Key, KeyValue>, ops: seq<Op>, main: int): seq<Event> {
    if ops == [] then [] else Cut(OpEvents(live, ops[0], Revision(main, 0)), 1)
  }

  lemma FirstBlock(live: map<Key, KeyValue>, ops: seq<Op>, main: int)
    requires ops != []
    ensures TxnBlocks(live, ops, main, |ops|)[0] == OpEvents(live, ops[0], Revision(main, 0))
  {
    hide TxnBlocks, OpEvents, LiveAfter;
    BlockIs(live, ops, main, |ops|, 0);
    NothingYet(live, ops, main);
  }

  lemma TxnVisible(live: map<Key, KeyValue>, ops: seq<Op>, main: int)
    ensures Visible(TxnEvents(live, ops, main, |ops|), Revision(main, 0)) == FirstEvents(live, ops, main)
  {
    hide TxnBlocks, OpEvents, Flatten, Visible;
    var bs := TxnBlocks(live, ops, main, |ops|);
    var es, at := Flatten(bs), Revision(main, 0);
    TxnBlocksNumbered(live, ops, main, |ops|);
    NothingFlat(bs);
    forall p | 0 < p < |es|
      ensures !es[p].rev.AtMost(at)
    {
      var i, a := FlattenIndex(bs, p);
      assert NumberedFrom(bs[i], Revision(main, i));
    }
    OnlyFirstVisible(es, at);
    if es != [] {
      var i, a := FlattenIndex(bs, 0);
      assert NumberedFrom(bs[i], Revision(main, i));
      if bs[0] != [] {
        FlattenIs(bs, 0, 0);
      }
    } else if ops != [] && bs[0] != [] {
      FlattenIs(bs, 0, 0);
    }
    if ops != [] {
      FirstBlock(live, ops, main);
    }
  }

  lemma FirstEndIs(live: map<Key, KeyValue>, ops: seq<Op>, main: int, k: Key)
    ensures EndIs(live, main, LiveAfter(live, FirstEvents(live, ops, main)), FirstEnd(live.Keys, ops, k), k)
  {
    hide LiveAfter, OpEvents, RangeKeys;
    var rev := Revision(main, 0);
    OneLook(live, Event(rev, k, Delete), k);
    if ops != [] {
      if ops[0].DeleteRangeOp? {
        var ks := RangeKeys(live.Keys, ops[0].key, ops[0].end);
        FirstSwept(live, ops[0], rev);
        if ks != [] {
          OneLook(live, Event(rev, ks[0], Delete), k);
        }
      } else {
        OneAtMost(live, ops[0], rev);
        OpEnd(live, main, live, StartEnd(k in live), ops[0], rev, k);
      }
    }
  }

  lemma FirstSwept(live: map<Key, KeyValue>, op: Op, rev: Revision)
    requires op.DeleteRangeOp?
    ensures var ks := RangeKeys(live.Keys, op.key, op.end);
            Cut(OpEvents(live, op, rev), 1) == if ks == [] then [] else [Event(rev, ks[0], Delete)]
  {
    hide RangeKeys;
    FirstTombstone(RangeKeys(live.Keys, op.key, op.end), rev);
  }

  lemma FirstTombstone(ks: seq<Key>, rev: Revision)
    ensures Cut(DeleteEvents(ks, rev), 1) == if ks == [] then [] else [Event(rev, ks[0], Delete)]
  {
  }

  lemma OneAtMost(live: map<Key, KeyValue>, op: Op, rev: Revision)
    requires !op.DeleteRangeOp?
    ensures Cut(OpEvents(live, op, rev), 1) == OpEvents(live, op, rev)
  {
  }

  // ---------------------------------------------------------------- one transaction

  lemma {:induction false} LiveBefore(h: seq<Event>, main: int)
    requires forall i :: 0 <= i < |h| ==> h[i].rev.main < main
    ensures Before(LiveAfter(map[], h), main)
  {
    if h != [] {
      LiveBefore(h[..|h| - 1], main);
    }
  }

  /** What is left of the history once every event counts. */
  function Whole(h: seq<Event>, k: Key): Result<KeyValue> {
    match Replay(h, k) case None => Err(KeyNotFound) case Some(kv) => Ok(kv)
  }

  /** Reads at the current revision answer with the whole history. */
  ghost predicate CurrentIsWhole(cs: seq<Command>) {
    forall k :: k != [] ==> GetResult(Run(cs), k, 0) == Whole(RefRun(cs).hist, k)
  }

  lemma ReadsCurrent(cs: seq<Command>, k: Key)
    requires NoCompaction(cs) && k != []
    ensures GetResult(Run(cs), k, 0) == Whole(Visible(RefRun(cs).hist, RefRun(cs).cur), k)
  {
    hide Run, RefRun, Visible, Replay;
    HistoryRefinement(cs, k, 0);
  }

  lemma LookIsReplay(h: seq<Event>, k: Key)
    ensures Replay(h, k) == Look(LiveAfter(map[], h), k)
  {
    LiveIsReplay(h, k);
  }

  /** After a transaction: all its events for the replay, at most one for the read. */
  lemma TxnHistory(pre: seq<Command>, c: Command)
    requires NoCompaction(pre) && c.CTxn?
    ensures var live, r := Run(pre).live, RefRun(pre + [c]);
            var main, ops := RefRun(pre).cur.main + 1, ChosenOps(live, c);
            && r.hist == RefRun(pre).hist + TxnEvents(live, ops, main, |ops|)
            && Visible(r.hist, r.cur) == RefRun(pre).hist + FirstEvents(live, ops, main)
            && live == LiveAfter(map[], RefRun(pre).hist) && Before(live, main)
  {
    hide Run, RefRun, TxnEvents, FirstEvents, Present, ChosenOps, LiveAfter, Visible, Entries, Before;
    var r := RefRun(pre);
    assert (pre + [c])[..|pre|] == pre;
    RefRunSnoc(pre, c);
    LiveIsPresent(pre);
    RunSimulates(pre);
    RunRefOk(pre);
    var main, ops := r.cur.main + 1, ChosenOps(Run(pre).live, c);
    LiveBefore(r.hist, main);
    TxnVisible(Run(pre).live, ops, main);
    VisibleAll(r.hist, Revision(main, 0));
    VisibleConcat(r.hist, TxnEvents(Run(pre).live, ops, main, |ops|), Revision(main, 0));
  }

  lemma RefRunSnoc(cs: seq<Command>, c: Command)
    ensures RefRun(cs + [c]) == RefStep(RefRun(cs), c)
  {
    assert (cs + [c])[..|cs|] == cs;
  }

  lemma TxnReadIsWhole(pre: seq<Command>, c: Command, k: Key)
    requires NoCompaction(pre) && c.CTxn? && k != []
    ensures var live := Run(pre).live;
            var ops := ChosenOps(live, c);
            GetResult(Run(pre + [c]), k, 0) == Whole(RefRun(pre + [c]).hist, k) <==>
            EndOf(k in live, ops, |ops|, k) == FirstEnd(live.Keys, ops, k)
  {
    hide Run, RefRun, TxnEvents, FirstEvents, ChosenOps, LiveAfter, Visible, Replay, EndOf, FirstEnd, GetResult, Before, EndOk, EndKv;
    var live, h := Run(pre).live, RefRun(pre).hist;
    var main, ops := RefRun(pre).cur.main + 1, ChosenOps(live, c);
    TxnHistory(pre, c);
    ReadsCurrent(pre + [c], k);
    var all, first := TxnEvents(live, ops, main, |ops|), FirstEvents(live, ops, main);
    LookIsReplay(h + all, k);
    LookIsReplay(h + first, k);
    LiveAfterConcat(map[], h, all);
    LiveAfterConcat(map[], h, first);
    EndOfIs(live, ops, main, |ops|, k);
    FirstEndIs(live, ops, main, k);
    EndsApart(live, main, EndOf(k in live, ops, |ops|, k), FirstEnd(live.Keys, ops, k), k);
  }

  /** Right after a transaction, reads at the current revision see all of it exactly when its operations
      leave of every key what the event at sub-revision 0 leaves. */
  lemma TxnSeenExactly(pre: seq<Command>, c: Command)
    requires NoCompaction(pre) && c.CTxn?
    ensures CurrentIsWhole(pre + [c]) <==> SeenAtOnce(Run(pre).live.Keys, ChosenOps(Run(pre).live, c))
  {
    hide Run, RefRun, ChosenOps, GetResult, Whole, EndOf, FirstEnd, SeenAtOnce;
    var live := Run(pre).live;
    SeenAtOnceEverywhere(live.Keys, ChosenOps(live, c));
    forall k | k != []
      ensures GetResult(Run(pre + [c]), k, 0) == Whole(RefRun(pre + [c]).hist, k) <==>
              EndOf(k in live, ChosenOps(live, c), |ChosenOps(live, c)|, k) == FirstEnd(live.Keys, ChosenOps(live, c), k)
    {
      TxnReadIsWhole(pre, c, k);
    }
  }

  // ---------------------------------------------------------------- whole runs

  /** The command writes something, and is no transaction. */
  predicate Advances(live: map<Key, KeyValue>, c: Command) {
    match c
    case CPut(k, _, _) => k != []
    case CDelete(k) => k != [] && k in live
    case CDeleteRange(s, end) => s != [] && exists k :: k in live && InRange(k, s, end)
    case _ => false
  }

  /** The last command that wrote is no transaction, or a transaction seen at once. */
  predicate EndsSeen(cs: seq<Command>) {
    if cs == [] then true
    else
      var pre, c := cs[..|cs| - 1], cs[|cs| - 1];
      if c.CTxn? then SeenAtOnce(Run(pre).live.Keys, ChosenOps(Run(pre).live, c))
      else Advances(Run(pre).live, c) || EndsSeen(pre)
  }

  lemma AdvancesMoves(live: map<Key, KeyValue>, cur: Revision, c: Command)
    requires !c.CTxn? && !c.CCompact? && 0 <= cur.main
    ensures Advances(live, c) ==> CommandCur(live, cur, c).main == cur.main + 1 && EventsAtMost(CommandEvents(live, cur, c), CommandCur(live, cur, c))
    ensures !Advances(live, c) ==> CommandCur(live, cur, c) == cur && CommandEvents(live, cur, c) == []
  {
    CommandVisible(live, cur, c);
    if c.CDeleteRange? {
      var ks := RangeKeys(live.Keys, c.start, c.end);
      if exists k :: k in live && InRange(k, c.start, c.end) {
        var k :| k in live && InRange(k, c.start, c.end);
        assert k in ks;
      } else {
        assert (set k | k in live.Keys && InRange(k, c.start, c.end)) == {};
      }
    }
  }

  lemma PlainSeen(pre: seq<Command>, c: Command)
    requires NoCompaction(pre) && !c.CTxn? && !c.CCompact?
    ensures Advances(Run(pre).live, c) ==> CurrentIsWhole(pre + [c])
    ensures !Advances(Run(pre).live, c) ==> (CurrentIsWhole(pre + [c]) <==> CurrentIsWhole(pre))
  {
    hide Run, RefRun, CommandEvents, CommandCur, Advances, Replay, GetResult, Visible, Present;
    var r, live := RefRun(pre), Run(pre).live;
    RefRunSnoc(pre, c);
    LiveIsPresent(pre);
    RunRefOk(pre);
    AdvancesMoves(live, r.cur, c);
    assert r.hist + [] == r.hist;
    var r' := RefRun(pre + [c]);
    if Advances(live, c) {
      VisibleAll(r'.hist, r'.cur);
    }
    forall k: Key | k != []
      ensures GetResult(Run(pre + [c]), k, 0) == Whole(Visible(r'.hist, r'.cur), k)
      ensures GetResult(Run(pre), k, 0) == Whole(Visible(r.hist, r.cur), k)
    {
      ReadsCurrent(pre + [c], k);
      ReadsCurrent(pre, k);
    }
  }

  /** Over whole runs: reads at the current revision answer with the whole history exactly when the run
      ends seen. */
  lemma {:induction false} CurrentSeesAllExactly(cs: seq<Command>)
    requires NoCompaction(cs)
    ensures CurrentIsWhole(cs) <==> EndsSeen(cs)
  {
    hide Run, RefRun, SeenAtOnce, Advances, CurrentIsWhole, ChosenOps;
    if cs == [] {
      EmptySeen();
    } else {
      var pre, c := cs[..|cs| - 1], cs[|cs| - 1];
      assert pre + [c] == cs;
      if c.CTxn? {
        TxnSeenExactly(pre, c);
      } else {
        CurrentSeesAllExactly(pre);
        PlainSeen(pre, c);
      }
    }
  }

  lemma EmptySeen()
    ensures CurrentIsWhole([])
  {
    forall k: Key | k != []
      ensures GetResult(Run([]), k, 0) == Whole(RefRun([]).hist, k)
    {
      ReadsCurrent([], k);
    }
  }

  ghost predicate StoreIsWhole(cs: seq<Command>) {
    forall k :: k != [] ==> StoreGet(Run(cs), k, 0) == Whole(RefRun(cs).hist, k)
  }

  /** The store's own read, in runs without a harmful transaction. */
  lemma StoreSeesAllExactly(cs: seq<Command>)
    requires NoCompaction(cs) && HarmlessRun(cs)
    ensures StoreIsWhole(cs) <==> EndsSeen(cs)
  {
    hide Run, RefRun, EndsSeen, HarmlessRun, StoreGet, GetResult, Whole;
    CurrentSeesAllExactly(cs);
    forall k
      ensures StoreGet(Run(cs), k, 0) == GetResult(Run(cs), k, 0)
    {
      HarmlessReads(cs, k, 0);
      HistoryRefinement(cs, k, 0);
    }
    assert CurrentIsWhole(cs) ==> StoreIsWhole(cs);
    forall k | StoreIsWhole(cs) && k != []
      ensures GetResult(Run(cs), k, 0) == Whole(RefRun(cs).hist, k)
    {
      assert StoreGet(Run(cs), k, 0) == GetResult(Run(cs), k, 0);
    }
  }
}

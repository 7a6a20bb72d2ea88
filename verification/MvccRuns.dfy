/** The main theorems about runs of the MVCC store. */
module MvccRuns {
  import opened Bytes
  import opened Revisions
  import opened MvccSpec
  import opened MvccTheorems

  // ---------------------------------------------------------------- sub-revision blocks

  /** Block i numbers its events from sub-revision i on. */
  ghost predicate Numbered(bs: seq<seq<Event>>, main: int) {
    forall i :: 0 <= i < |bs| ==> NumberedFrom(bs[i], Revision(main, i))
  }

  predicate NumberedFrom(es: seq<Event>, rev: Revision) {
    forall j :: 0 <= j < |es| ==> es[j].rev == Revision(rev.main, rev.sub + j)
  }

  /** No operation's block of sub-revisions reaches the index of a later writing operation. */
  predicate Fits(bs: seq<seq<Event>>) {
    forall i, j :: 0 <= i < j < |bs| && bs[i] != [] && bs[j] != [] ==> i + |bs[i]| <= j
  }

  lemma {:induction false} FlattenAt(bs: seq<seq<Event>>, i: nat, j: nat) returns (p: nat)
    requires i < |bs| && j < |bs[i]|
    ensures |Flatten(bs[..i])| <= p < |Flatten(bs[..i + 1])| <= |Flatten(bs)| && Flatten(bs)[p] == bs[i][j]
  {
    var n := |bs| - 1;
    if i == n {
      p := |Flatten(bs[..n])| + j;
      assert bs[..i + 1] == bs;
    } else {
      assert bs[..n][..i] == bs[..i] && bs[..n][..i + 1] == bs[..i + 1];
      p := FlattenAt(bs[..n], i, j);
    }
  }

  lemma {:induction false} FlattenOrigin(bs: seq<seq<Event>>, e: Event) returns (i: nat, j: nat)
    requires e in Flatten(bs)
    ensures i < |bs| && j < |bs[i]| && bs[i][j] == e
  {
    var n := |bs| - 1;
    if e in bs[n] {
      i := n;
      j :| 0 <= j < |bs[n]| && bs[n][j] == e;
    } else {
      i, j := FlattenOrigin(bs[..n], e);
    }
  }

  lemma {:induction false} FlattenAscends(bs: seq<seq<Event>>, main: int)
    requires Numbered(bs, main) && Fits(bs)
    ensures HistoryAscends(Flatten(bs))
  {
    if bs != [] {
      var n := |bs| - 1;
      var front := bs[..n];
      assert forall i :: 0 <= i < n ==> front[i] == bs[i];
      FlattenAscends(front, main);
      forall p, q | 0 <= p < |Flatten(front)| && 0 <= q < |bs[n]|
        ensures Flatten(front)[p].rev.LessThan(bs[n][q].rev)
      {
        var i, j := FlattenOrigin(front, Flatten(front)[p]);
        assert i + |bs[i]| <= n;
      }
    }
  }

  ghost predicate Clash(es: seq<Event>, p: int, q: int) {
    0 <= p < q < |es| && es[p].rev == es[q].rev
  }

  lemma {:induction false} FlattenPrefix(bs: seq<seq<Event>>, a: nat, b: nat)
    requires a <= b <= |bs|
    ensures |Flatten(bs[..a])| <= |Flatten(bs[..b])|
  {
    if a < b {
      FlattenPrefix(bs, a, b - 1);
      assert bs[..b][..b - 1] == bs[..b - 1];
    }
  }

  /** Blocks that do not fit give the same revision to two events. */
  lemma FlattenClash(bs: seq<seq<Event>>, main: int)
    requires Numbered(bs, main) && !Fits(bs)
    ensures exists p, q :: Clash(Flatten(bs), p, q)
  {
    var i, j :| 0 <= i < j < |bs| && bs[i] != [] && bs[j] != [] && j < i + |bs[i]|;
    var p := FlattenAt(bs, i, j - i);
    var q := FlattenAt(bs, j, 0);
    FlattenPrefix(bs, i + 1, j);
    assert Clash(Flatten(bs), p, q);
  }

  lemma OpNumbered(live: map<Key, KeyValue>, op: Op, rev: Revision)
    ensures NumberedFrom(OpEvents(live, op, rev), rev)
  {
  }

  lemma NumberedAscends(es: seq<Event>, rev: Revision)
    requires NumberedFrom(es, rev)
    ensures HistoryAscends(es)
  {
  }

  lemma NumberedSnoc(bs: seq<seq<Event>>, es: seq<Event>, main: int)
    requires Numbered(bs, main) && NumberedFrom(es, Revision(main, |bs|))
    ensures Numbered(bs + [es], main)
  {
    forall i | 0 <= i < |bs| + 1
      ensures NumberedFrom((bs + [es])[i], Revision(main, i))
    {
      if i < |bs| {
        assert (bs + [es])[i] == bs[i];
      }
    }
  }

  lemma {:induction false} TxnBlocksNumbered(live: map<Key, KeyValue>, ops: seq<Op>, main: int, n: nat)
    requires n <= |ops|
    ensures Numbered(TxnBlocks(live, ops, main, n), main)
  {
    if n > 0 {
      var before := TxnBlocks(live, ops, main, n - 1);
      var now := LiveAfter(live, Flatten(before));
      TxnBlocksNumbered(live, ops, main, n - 1);
      OpNumbered(now, ops[n - 1], Revision(main, n - 1));
      NumberedSnoc(before, OpEvents(now, ops[n - 1], Revision(main, n - 1)), main);
    }
  }

  // ---------------------------------------------------------------- uniqueness of revisions

  /** What a transaction must satisfy for its revisions to be unique: decided by how many keys its
      DeleteRange operations match. Other commands always satisfy it. */
  predicate CleanStep(m: Machine, c: Command) {
    c.CTxn? ==> var ops := ChosenOps(m.live, c); Fits(TxnBlocks(m.live, ops, m.cur.main + 1, |ops|))
  }

  predicate RevisionsDistinct(log: seq<Entry>) {
    forall i, j :: 0 <= i < j < |log| ==> log[i].rev != log[j].rev
  }

  lemma AppendAscends(m: Machine, es: seq<Event>)
    requires Inv(m) && LogAscends(m.log) && AtMain(es, m.cur.main + 1) && HistoryAscends(es)
    ensures LogAscends(m.log + Entries(m.live, es))
  {
  }

  lemma AppendClash(m: Machine, es: seq<Event>, p: nat, q: nat)
    requires Clash(es, p, q)
    ensures !RevisionsDistinct(m.log + Entries(m.live, es))
  {
    var log := m.log + Entries(m.live, es);
    assert log[|m.log| + p].rev == log[|m.log| + q].rev;
  }

  /** Fitting events ascend; unfitting ones clash. */
  ghost predicate AscendsIff(fits: bool, es: seq<Event>) {
    && (fits ==> HistoryAscends(es))
    && (!fits ==> exists p, q :: Clash(es, p, q))
  }

  lemma BlocksAscend(bs: seq<seq<Event>>, main: int)
    requires Numbered(bs, main)
    ensures AscendsIff(Fits(bs), Flatten(bs))
  {
    if Fits(bs) {
      FlattenAscends(bs, main);
    } else {
      FlattenClash(bs, main);
    }
  }

  lemma CommandNumbered(live: map<Key, KeyValue>, cur: Revision, c: Command)
    requires !c.CTxn?
    ensures NumberedFrom(CommandEvents(live, cur, c), Revision(cur.main + 1, 0))
  {
  }

  lemma TxnEventsAscend(live: map<Key, KeyValue>, ops: seq<Op>, main: int)
    ensures AscendsIff(Fits(TxnBlocks(live, ops, main, |ops|)), TxnEvents(live, ops, main, |ops|))
  {
    TxnBlocksNumbered(live, ops, main, |ops|);
    BlocksAscend(TxnBlocks(live, ops, main, |ops|), main);
  }

  lemma CommandEventsAscend(m: Machine, c: Command)
    ensures AscendsIff(CleanStep(m, c), CommandEvents(m.live, m.cur, c))
  {
    hide TxnBlocks, TxnEvents, Fits, ChosenOps, AscendsIff, DeleteEvents, RangeKeys, NumberedFrom;
    if c.CTxn? {
      TxnEventsAscend(m.live, ChosenOps(m.live, c), m.cur.main + 1);
    } else {
      CommandNumbered(m.live, m.cur, c);
      NumberedAscends(CommandEvents(m.live, m.cur, c), Revision(m.cur.main + 1, 0));
      CleanAscends(CommandEvents(m.live, m.cur, c));
    }
  }

  lemma CleanAscends(es: seq<Event>)
    requires HistoryAscends(es)
    ensures AscendsIff(true, es)
  {
  }

  /** A command keeps revisions unique and in order if and only if it is clean. */
  lemma StepAscends(m: Machine, c: Command)
    requires Inv(m) && LogAscends(m.log)
    ensures LogAscends(Step(m, c).log) <==> CleanStep(m, c)
    ensures RevisionsDistinct(Step(m, c).log) <==> CleanStep(m, c)
  {
    var m' := Step(m, c);
    if c.CCompact? {
      RetainedAscends(m.log, Revision(c.rev, 0));
    } else {
      var es := CommandEvents(m.live, m.cur, c);
      CommandEventRevs(m.live, m.cur, c);
      CommandEventsAscend(m, c);
      if CleanStep(m, c) {
        AppendAscends(m, es);
      } else {
        var p, q :| Clash(es, p, q);
        AppendClash(m, es, p, q);
      }
    }
    AscendsDistinct(m'.log);
  }

  lemma AscendsDistinct(log: seq<Entry>)
    ensures LogAscends(log) ==> RevisionsDistinct(log)
  {
  }

  predicate Small(bs: seq<seq<Event>>) {
    forall i :: 0 <= i < |bs| ==> |bs[i]| <= 1
  }

  lemma SmallSnoc(bs: seq<seq<Event>>, es: seq<Event>)
    requires Small(bs)
    ensures Fits(bs + [es])
    ensures |es| <= 1 ==> Small(bs + [es])
  {
  }

  lemma OpSmall(live: map<Key, KeyValue>, op: Op, rev: Revision)
    requires !op.DeleteRangeOp?
    ensures |OpEvents(live, op, rev)| <= 1
  {
  }

  lemma {:induction false} SmallBlocks(live: map<Key, KeyValue>, ops: seq<Op>, main: int, n: nat)
    requires n <= |ops| && forall i :: 0 <= i < n ==> !ops[i].DeleteRangeOp?
    ensures Small(TxnBlocks(live, ops, main, n))
  {
    if n > 0 {
      var before := TxnBlocks(live, ops, main, n - 1);
      var now := LiveAfter(live, Flatten(before));
      SmallBlocks(live, ops, main, n - 1);
      OpSmall(now, ops[n - 1], Revision(main, n - 1));
      SmallSnoc(before, OpEvents(now, ops[n - 1], Revision(main, n - 1)));
    }
  }

  /** A transaction whose DeleteRange, if any, comes last is clean in every state. */
  lemma DeleteRangeLastIsClean(m: Machine, c: Command)
    requires c.CTxn?
    requires forall i :: 0 <= i < |c.thenOps| - 1 ==> !c.thenOps[i].DeleteRangeOp?
    requires forall i :: 0 <= i < |c.elseOps| - 1 ==> !c.elseOps[i].DeleteRangeOp?
    ensures CleanStep(m, c)
  {
    hide LiveAfter, Flatten, OpEvents, Fits, Small, Holds;
    var ops := ChosenOps(m.live, c);
    if ops == [] {
      NoBlocks();
    } else {
      var n := |ops| - 1;
      var before := TxnBlocks(m.live, ops, m.cur.main + 1, n);
      SmallBlocks(m.live, ops, m.cur.main + 1, n);
      SmallSnoc(before, OpEvents(LiveAfter(m.live, Flatten(before)), ops[n], Revision(m.cur.main + 1, n)));
    }
  }

  lemma NoBlocks()
    ensures Fits([])
  {
  }

  predicate CleanRun(cs: seq<Command>) {
    cs == [] || (CleanRun(cs[..|cs| - 1]) && CleanStep(Run(cs[..|cs| - 1]), cs[|cs| - 1]))
  }

  lemma {:induction false} RunAscends(cs: seq<Command>)
    requires CleanRun(cs)
    ensures LogAscends(Run(cs).log)
  {
    if cs != [] {
      RunAscends(cs[..|cs| - 1]);
      RunInv(cs[..|cs| - 1]);
      StepAscends(Run(cs[..|cs| - 1]), cs[|cs| - 1]);
    }
  }

  lemma DistinctPrefix(log: seq<Entry>, more: seq<Entry>)
    requires RevisionsDistinct(log + more)
    ensures RevisionsDistinct(log)
  {
    assert forall i :: 0 <= i < |log| ==> (log + more)[i] == log[i];
  }

  /** Without compactions, revisions are unique at the end if and only if every command was clean. */
  lemma {:induction false} RunDistinct(cs: seq<Command>)
    requires NoCompaction(cs)
    ensures RevisionsDistinct(Run(cs).log) <==> CleanRun(cs)
  {
    if cs != [] {
      var front, c := cs[..|cs| - 1], cs[|cs| - 1];
      RunDistinct(front);
      if CleanRun(front) {
        RunAscends(front);
        RunInv(front);
        StepAscends(Run(front), c);
      } else if RevisionsDistinct(Run(cs).log) {
        DistinctPrefix(Run(front).log, Entries(Run(front).live, CommandEvents(Run(front).live, Run(front).cur, c)));
      }
    }
  }

  // ---------------------------------------------------------------- history refinement

  /** The reference store: nothing but the history and the revision counter. */
  datatype Reference = Reference(hist: seq<Event>, cur: Revision)

  function HistoryKeys(h: seq<Event>): set<Key> {
    set e | e in h :: e.key
  }

  function Present(h: seq<Event>): map<Key, KeyValue> {
    map k | k in HistoryKeys(h) && Replay(h, k).Some? :: Replay(h, k).value
  }

  function RefStep(r: Reference, c: Command): Reference
  {
    Reference(r.hist + CommandEvents(Present(r.hist), r.cur, c), CommandCur(Present(r.hist), r.cur, c))
  }

  function RefRun(cs: seq<Command>): Reference
  {
    if cs == [] then Reference([], Zero) else RefStep(RefRun(cs[..|cs| - 1]), cs[|cs| - 1])
  }

  predicate NoCompaction(cs: seq<Command>) {
    forall i :: 0 <= i < |cs| ==> !cs[i].CCompact?
  }

  lemma {:induction false} ReplayedKey(h: seq<Event>, k: Key)
    ensures Replay(h, k).Some? ==> k in HistoryKeys(h) && Replay(h, k).value.key == k
  {
    if h != [] {
      ReplayedKey(h[..|h| - 1], k);
      assert h == h[..|h| - 1] + [h[|h| - 1]];
    }
  }

  lemma PresentIsLive(h: seq<Event>)
    ensures Present(h) == LiveAfter(map[], h)
  {
    forall k
      ensures k in Present(h) <==> k in LiveAfter(map[], h)
      ensures k in Present(h) ==> Present(h)[k] == LiveAfter(map[], h)[k]
    {
      LiveIsReplay(h, k);
      ReplayedKey(h, k);
    }
  }

  function Materialized(r: Reference): Machine {
    Machine(Entries(map[], r.hist), LiveAfter(map[], r.hist), r.cur, Zero)
  }

  lemma StepSimulates(r: Reference, c: Command)
    requires !c.CCompact?
    ensures Step(Materialized(r), c) == Materialized(RefStep(r, c))
  {
    var es := CommandEvents(Present(r.hist), r.cur, c);
    PresentIsLive(r.hist);
    LiveAfterConcat(map[], r.hist, es);
    EntriesConcat(map[], r.hist, es);
  }

  /** Without compactions the store is the materialized reference. */
  lemma {:induction false} RunSimulates(cs: seq<Command>)
    requires NoCompaction(cs)
    ensures Run(cs) == Materialized(RefRun(cs))
  {
    if cs != [] {
      RunSimulates(cs[..|cs| - 1]);
      StepSimulates(RefRun(cs[..|cs| - 1]), cs[|cs| - 1]);
    }
  }

  /** Main revisions never fall, and within one only the first event can be at sub-revision 0. */
  predicate SubZeroFirst(h: seq<Event>) {
    && (forall i :: 0 <= i < |h| ==> 0 <= h[i].rev.sub)
    && (forall i, j :: 0 <= i < j < |h| ==>
          h[i].rev.main < h[j].rev.main || (h[i].rev.main == h[j].rev.main && 1 <= h[j].rev.sub))
  }

  predicate EventsAtMost(es: seq<Event>, cur: Revision) {
    forall i :: 0 <= i < |es| ==> es[i].rev.AtMost(cur)
  }

  ghost predicate RefOk(r: Reference) {
    && SubZeroFirst(r.hist)
    && 0 <= r.cur.main && 0 <= r.cur.sub
    && (forall i :: 0 <= i < |r.hist| ==> 1 <= r.hist[i].rev.main <= r.cur.main)
    && (r.cur.sub == 0 || EventsAtMost(r.hist, r.cur))
  }

  lemma {:induction false} FlattenIndex(bs: seq<seq<Event>>, p: nat) returns (i: nat, a: nat)
    requires p < |Flatten(bs)|
    ensures i < |bs| && a < |bs[i]| && p == |Flatten(bs[..i])| + a && Flatten(bs)[p] == bs[i][a]
  {
    var n := |bs| - 1;
    if p < |Flatten(bs[..n])| {
      i, a := FlattenIndex(bs[..n], p);
      assert bs[..n][..i] == bs[..i];
    } else {
      i, a := n, p - |Flatten(bs[..n])|;
    }
  }

  lemma LaterSubs(live: map<Key, KeyValue>, cur: Revision, c: Command, p: nat)
    requires 0 < p < |CommandEvents(live, cur, c)|
    ensures 1 <= CommandEvents(live, cur, c)[p].rev.sub
  {
    hide TxnBlocks, OpEvents, DeleteEvents, RangeKeys, ChosenOps, Flatten;
    if c.CTxn? {
      var ops := ChosenOps(live, c);
      var bs := TxnBlocks(live, ops, cur.main + 1, |ops|);
      TxnBlocksNumbered(live, ops, cur.main + 1, |ops|);
      var i, a := FlattenIndex(bs, p);
      assert NumberedFrom(bs[i], Revision(cur.main + 1, i));
      NothingFlat(bs);
    } else {
      CommandNumbered(live, cur, c);
    }
  }

  lemma NothingFlat(bs: seq<seq<Event>>)
    ensures Flatten(bs[..0]) == []
  {
  }

  /** After a command that is not a transaction everything is at or below the new current revision. */
  lemma CommandVisible(live: map<Key, KeyValue>, cur: Revision, c: Command)
    requires !c.CTxn? && !c.CCompact?
    ensures EventsAtMost(CommandEvents(live, cur, c), CommandCur(live, cur, c))
  {
  }

  lemma RefStepOk(r: Reference, c: Command)
    requires RefOk(r) && !c.CCompact?
    ensures RefOk(RefStep(r, c))
  {
    hide CommandEvents, Present, CommandCur;
    var live := Present(r.hist);
    var es := CommandEvents(live, r.cur, c);
    CommandEventRevs(live, r.cur, c);
    forall p | 0 < p < |es|
      ensures 1 <= es[p].rev.sub
    {
      LaterSubs(live, r.cur, c, p);
    }
    if c.CTxn? {
      TxnCur(live, r.cur, c);
    } else {
      CommandVisible(live, r.cur, c);
    }
  }

  lemma TxnCur(live: map<Key, KeyValue>, cur: Revision, c: Command)
    requires c.CTxn?
    ensures CommandCur(live, cur, c) == Revision(cur.main + 1, 0)
  {
  }

  lemma {:induction false} RunRefOk(cs: seq<Command>)
    requires NoCompaction(cs)
    ensures RefOk(RefRun(cs))
  {
    hide RefStep, RefOk;
    if cs == [] {
      EmptyRefOk();
    } else {
      RunRefOk(cs[..|cs| - 1]);
      RefStepOk(RefRun(cs[..|cs| - 1]), cs[|cs| - 1]);
    }
  }

  lemma EmptyRefOk()
    ensures RefOk(Reference([], Zero))
  {
  }

  /** The revision a read asks for. */
  function AskedRev(r: Reference, rev: int): Revision {
    if rev == 0 then r.cur else Revision(rev, 0)
  }

  lemma AskedVisibleFirst(r: Reference, rev: int)
    requires RefOk(r)
    ensures VisibleFirst(r.hist, AskedRev(r, rev))
  {
  }

  /** What the reference answers to a point read. */
  function RefGet(r: Reference, k: Key, rev: int): Result<KeyValue> {
    var at := AskedRev(r, rev);
    if k == [] then Err(EmptyKey)
    else if rev < 0 then Err(CompactedRevision)
    else if r.cur.LessThan(at) then Err(FutureRevision)
    else match Replay(Visible(r.hist, at), k) case None => Err(KeyNotFound) case Some(kv) => Ok(kv)
  }

  /** History refinement. In every compaction-free run, a read of the log at any revision returns
      exactly what replaying the visible part of the history gives. */
  lemma HistoryRefinement(cs: seq<Command>, k: Key, rev: int)
    requires NoCompaction(cs)
    ensures GetResult(Run(cs), k, rev) == RefGet(RefRun(cs), k, rev)
  {
    hide RefRun, Run, Replay, Visible, Entries, ReadAt, VisibleFirst;
    var r := RefRun(cs);
    RunSimulates(cs);
    RunRefOk(cs);
    AskedVisibleFirst(r, rev);
    ReadIsReplay(r.hist, k, AskedRev(r, rev));
  }

  function ReplayAll(h: seq<Event>, ks: seq<Key>): seq<KeyValue>
  {
    if ks == [] then []
    else
      var r := Replay(h, ks[|ks| - 1]);
      ReplayAll(h, ks[..|ks| - 1]) + (if r.Some? then [r.value] else [])
  }

  lemma {:induction false} ReadAllIsReplay(h: seq<Event>, ks: seq<Key>, at: Revision)
    requires VisibleFirst(h, at)
    ensures ReadAll(Entries(map[], h), ks, at) == ReplayAll(Visible(h, at), ks)
  {
    if ks != [] {
      ReadAllIsReplay(h, ks[..|ks| - 1], at);
      ReadIsReplay(h, ks[|ks| - 1], at);
    }
  }

  function RefRange(r: Reference, start: Key, end: Option<Key>, rev: int, limit: int): Result<seq<KeyValue>> {
    var at := AskedRev(r, rev);
    if start == [] then Err(EmptyKey)
    else if rev < 0 then Err(CompactedRevision)
    else if r.cur.LessThan(at) then Err(FutureRevision)
    else Ok(Cut(ReplayAll(Visible(r.hist, at), RangeKeys(HistoryKeys(r.hist), start, end)), limit))
  }

  /** The same for range reads: the present keys of the interval in ascending order, cut to the limit. */
  lemma RangeRefinement(cs: seq<Command>, start: Key, end: Option<Key>, rev: int, limit: int)
    requires NoCompaction(cs)
    ensures RangeResult(Run(cs), start, end, rev, limit) == RefRange(RefRun(cs), start, end, rev, limit)
  {
    hide RefRun, Run, Replay, Visible, Entries, ReadAll, VisibleFirst, RangeKeys, ReplayAll, HistoryKeys;
    var r := RefRun(cs);
    RunSimulates(cs);
    RunRefOk(cs);
    AskedVisibleFirst(r, rev);
    EntriesKeys(r.hist);
    ReadAllIsReplay(r.hist, RangeKeys(HistoryKeys(r.hist), start, end), AskedRev(r, rev));
  }

  lemma EntriesKeys(h: seq<Event>)
    ensures LogKeys(Entries(map[], h)) == HistoryKeys(h)
  {
    var log := Entries(map[], h);
    forall k
      ensures k in LogKeys(log) <==> k in HistoryKeys(h)
    {
      if k in LogKeys(log) {
        var i :| 0 <= i < |log| && log[i].kv.key == k;
        assert h[i] in h;
      }
      if k in HistoryKeys(h) {
        var i :| 0 <= i < |h| && h[i].key == k;
        assert log[i] in log;
      }
    }
  }

  lemma LastAtSnoc(log: seq<Entry>, e: Entry, k: Key, at: Revision)
    ensures LastAt(log + [e], k, at) == if e.kv.key == k && e.rev.AtMost(at) then Some(e) else LastAt(log, k, at)
  {
    assert (log + [e])[..|log|] == log;
  }

  // ---------------------------------------------------------------- witnesses

  lemma RunOne(c: Command)
    ensures Run([c]) == Step(Init, c)
  {
    assert [c][..0] == [];
    assert Run([]) == Init;
  }

  lemma RunSnoc(cs: seq<Command>, c: Command)
    ensures Run(cs + [c]) == Step(Run(cs), c)
  {
    assert (cs + [c])[..|cs|] == cs;
  }

  lemma StepOne(m: Machine, c: Command, e: Event)
    requires CommandEvents(m.live, m.cur, c) == [e] && !c.CCompact?
    ensures Step(m, c) == Machine(m.log + [Entry(e.rev, NewKv(m.live, e))], LiveAfter1(m.live, e), CommandCur(m.live, m.cur, c), m.compacted)
  {
    assert [e][..0] == [];
  }

  function OneVersion(create: int, main: int, version: int): Entry {
    Entry(Revision(main, 0), KeyValue([1], [], create, main, version, 0))
  }

  lemma FirstLifeInMemory()
    ensures Run([CPut([1], [], 0), CDelete([1])]) == Machine([OneVersion(1, 1, 1), OneVersion(1, 2, 0)], map[], Revision(2, 0), Zero)
  {
    hide Step, Run;
    var put, delete := CPut([1], [], 0), CDelete([1]);
    RunOne(put);
    RunSnoc([put], delete);
    FirstPutInMemory();
    FirstDeleteInMemory();
    assert [put] + [delete] == [put, delete];
  }

  const OneStored := Machine([OneVersion(1, 1, 1)], map[[1] := OneVersion(1, 1, 1).kv], Revision(1, 0), Zero)

  lemma FirstPutInMemory()
    ensures Step(Init, CPut([1], [], 0)) == OneStored
  {
    hide Step;
    StepOne(Init, CPut([1], [], 0), Event(Revision(1, 0), [1], Put([], 0)));
  }

  lemma FirstDeleteInMemory()
    ensures Step(OneStored, CDelete([1])) == Machine([OneVersion(1, 1, 1), OneVersion(1, 2, 0)], map[], Revision(2, 0), Zero)
  {
    hide Step;
    StepOne(OneStored, CDelete([1]), Event(Revision(2, 0), [1], Delete));
    assert OneStored.live - {[1]} == map[];
  }

  const TwoPuts := CTxn([], [PutOp([1], [], 0), PutOp([2], [], 0)], [])

  lemma NoEvents(ops: seq<Op>)
    ensures TxnEvents(map[], ops, 1, 0) == []
  {
  }

  lemma TwoPutsEvents()
    ensures CommandEvents(map[], Zero, TwoPuts) ==
            [Event(Revision(1, 0), [1], Put([], 0)), Event(Revision(1, 1), [2], Put([], 0))]
  {
    hide LiveAfter, TxnBlocks, Flatten, TxnEvents;
    var ops := [PutOp([1], [], 0), PutOp([2], [], 0)];
    var e1 := Event(Revision(1, 0), [1], Put([], 0));
    NoEvents(ops);
    TxnUnfold(map[], ops, 1, 1, []);
    assert TxnEvents(map[], ops, 1, 1) == [e1];
    TxnUnfold(map[], ops, 1, 2, [e1]);
  }

  lemma TwoPutsLog()
    ensures LastAt(Entries(map[], CommandEvents(map[], Zero, TwoPuts)), [2], Revision(1, 0)).None?
  {
    TwoPutsEvents();
    LastAtExact(Entries(map[], CommandEvents(map[], Zero, TwoPuts)), [2], Revision(1, 0));
  }

  lemma TwoPutsHistory()
    ensures RefRun([TwoPuts]).hist == CommandEvents(map[], Zero, TwoPuts)
  {
    assert Present([]) == map[];
    assert [TwoPuts][..0] == [] && RefRun([]) == Reference([], Zero);
  }

  /** A transaction with two puts: the second one cannot be read at revision 0 afterwards. */
  lemma TxnHidesItsOwnWrite()
    ensures GetResult(Run([TwoPuts]), [2], 0) == Err(KeyNotFound)
    ensures Replay(RefRun([TwoPuts]).hist, [2]).Some?
  {
    RunOne(TwoPuts);
    assert Run([TwoPuts]).log == Entries(map[], CommandEvents(map[], Zero, TwoPuts));
    TwoPutsLog();
    TwoPutsHistory();
    TwoPutsEvents();
  }
}

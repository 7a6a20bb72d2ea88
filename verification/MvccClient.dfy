/** The imperative store run on a list of commands: the end-to-end statements. */
module MvccClient {
  import opened Bytes
  import opened Revisions
  import opened MvccSpec
  import opened MvccTheorems
  import opened MvccRuns
  import opened MvccReads
  import opened MvccAnswers
  import opened MvccCompaction
  import opened MemoryStores

  method Apply(s: MemoryStore, c: Command)
    requires s.Valid() && !s.closed
    modifies s, s.keyIndex
    ensures s.Valid() && !s.closed && s.m == Step(old(s.m), c)
  {
    hide Step;
    match c {
      case CPut(k, v, l) => var _ := s.Put(k, v, l);
      case CDelete(k) => var _ := s.Delete(k);
      case CDeleteRange(start, end) => var _ := s.DeleteRange(start, end);
      case CTxn(conds, thenOps, elseOps) => var _ := s.Commit(conds, thenOps, elseOps);
      case CCompact(rev) => var _ := s.Compact(rev);
    }
  }

  /** A fresh store driven through the commands is in the state the specification run predicts. */
  method Execute(cs: seq<Command>) returns (s: MemoryStore)
    ensures fresh(s) && fresh(s.keyIndex) && s.Valid() && !s.closed && s.m == Run(cs)
  {
    hide Step;
    s := new MemoryStore();
    var i := 0;
    while i < |cs|
      invariant 0 <= i <= |cs| && fresh(s) && fresh(s.keyIndex)
      invariant s.Valid() && !s.closed && s.m == Run(cs[..i])
    {
      assert cs[..i + 1][..i] == cs[..i];
      Apply(s, cs[i]);
      i := i + 1;
    }
    assert cs[..i] == cs;
  }

  /** After any compaction-free run without a harmful transaction, the store answers every point read,
      errors included, with the replay of the history that the read's revision can see. */
  method ReadAfter(cs: seq<Command>, k: Key, rev: int) returns (r: Result<KeyValue>)
    requires NoCompaction(cs) && HarmlessRun(cs)
    ensures r == RefGet(RefRun(cs), k, rev)
  {
    hide Run, RefRun, StoreGet, RefGet, HarmlessRun;
    var s := Execute(cs);
    HarmlessReads(cs, k, rev);
    r := s.Get(k, rev);
  }

  /** The same for range reads. */
  method RangeAfter(cs: seq<Command>, start: Key, end: Option<Key>, rev: int, limit: int) returns (r: Result<seq<KeyValue>>)
    requires NoCompaction(cs) && HarmlessRun(cs)
    ensures r == RefRange(RefRun(cs), start, end, rev, limit)
  {
    hide Run, RefRun, StoreRange, RefRange, HarmlessRun;
    var s := Execute(cs);
    HarmlessRanges(cs, start, end, rev, limit);
    r := s.Range(start, end, rev, limit);
  }

  /** After any compaction-free run a transaction succeeds exactly when every condition agrees with the
      replayed record of its key, and each response answers over the history its operation ran on. */
  method CommitAfter(cs: seq<Command>, conds: seq<Condition>, thenOps: seq<Op>, elseOps: seq<Op>)
    returns (succeeded: bool, responses: seq<Response>)
    requires NoCompaction(cs)
    ensures succeeded <==> AllMeet(RefRun(cs).hist, conds)
    ensures var ops := if succeeded then thenOps else elseOps;
            |responses| == |ops| && forall i :: 0 <= i < |ops| ==>
              Answers(RefRun(cs).hist + TxnEvents(Run(cs).live, ops, Run(cs).cur.main + 1, i), ops[i], responses[i])
  {
    hide Run, RefRun, Answers, TxnEvents, TxnResponses, Holds, Meets, Step;
    var s := Execute(cs);
    var r := s.Commit(conds, thenOps, elseOps);
    succeeded, responses := r.value.succeeded, r.value.responses;
    CommitAnswers(cs, CTxn(conds, thenOps, elseOps));
  }

  /** Run any commands, read, compact, read again: the second answer differs exactly when the compaction
      loses the read. */
  method CompactBetweenReads(cs: seq<Command>, t: int, k: Key, rev: int) returns (before: Result<KeyValue>, after: Result<KeyValue>)
    ensures before == StoreGet(Run(cs), k, rev)
    ensures CanCompact(Run(cs), t) ==> after == CompactedGet(Run(cs), t, k, rev)
    ensures after != before <==> k != [] && Loses(Run(cs), t, rev, WrittenBelow(before, t))
  {
    hide Run, StoreGet, CompactedGet, Loses, CanCompact;
    var s := Execute(cs);
    before := s.Get(k, rev);
    var _ := s.Compact(t);
    RunSnoc(cs, CCompact(t));
    CompactionLosesExactly(cs, t, k, rev);
    if CanCompact(Run(cs), t) {
      CompactionEffect(cs, t, k, rev);
    }
    after := s.Get(k, rev);
  }

  /** The same for range reads. */
  method CompactBetweenRanges(cs: seq<Command>, t: int, start: Key, end: Option<Key>, rev: int, limit: int)
    returns (before: Result<seq<KeyValue>>, after: Result<seq<KeyValue>>)
    ensures before == StoreRange(Run(cs), start, end, rev, limit)
    ensures CanCompact(Run(cs), t) ==> after == CompactedRange(Run(cs), t, start, end, rev, limit)
    ensures after != before <==> start != [] && Loses(Run(cs), t, rev, SomeWrittenBelow(before, t))
  {
    hide Run, StoreRange, CompactedRange, Loses, CanCompact;
    var s := Execute(cs);
    before := s.Range(start, end, rev, limit);
    var _ := s.Compact(t);
    RunSnoc(cs, CCompact(t));
    RangeCompactionLosesExactly(cs, t, start, end, rev, limit);
    if CanCompact(Run(cs), t) {
      RangeCompactionEffect(cs, t, start, end, rev, limit);
    }
    after := s.Range(start, end, rev, limit);
  }

  /** A compaction-free run without a harmful transaction, then one compaction: the store answers a read
      at or above the target with the replay, unless that was written below the target. */
  method ReadAfterCompaction(cs: seq<Command>, t: int, k: Key, rev: int) returns (r: Result<KeyValue>)
    requires NoCompaction(cs) && HarmlessRun(cs) && CanCompact(Run(cs), t) && (rev == 0 || t <= rev)
    ensures var replay := RefGet(RefRun(cs), k, rev);
            r == if WrittenBelow(replay, t) then Err(KeyNotFound) else replay
  {
    hide Run, RefRun, RefGet, HarmlessRun, StoreGet, CanCompact;
    var before;
    before, r := CompactBetweenReads(cs, t, k, rev);
    HarmlessReads(cs, k, rev);
    LostIsNotFound(Run(cs), t, k, rev);
  }

  lemma LostIsNotFound(m: Machine, t: int, k: Key, rev: int)
    requires rev == 0 || t <= rev
    ensures CompactedGet(m, t, k, rev) != StoreGet(m, k, rev) && StoreGet(m, k, rev).Ok? ==> CompactedGet(m, t, k, rev) == Err(KeyNotFound)
  {
  }

  /** Run any commands, compact, delete: the delete finds the key exactly when it was written at or above
      the target. */
  method DeleteAfterCompaction(cs: seq<Command>, t: int, k: Key) returns (r: Result<(int, int)>)
    requires CanCompact(Run(cs), t) && k != []
    ensures r.Ok? && r.value.1 == if WrittenAt(Written(cs), k, t) then 1 else 0
  {
    hide Run, Written, WrittenAt, CanCompact;
    var s := Execute(cs);
    var _ := s.Compact(t);
    RunSnoc(cs, CCompact(t));
    OpenAfterCompaction(cs, t, k);
    r := s.Delete(k);
  }

  /** After any clean list of commands, compactions included, index and revision store agree. */
  lemma AgreementAfter(cs: seq<Command>, s: MemoryStore)
    requires CleanRun(cs) && s.Valid() && s.m == Run(cs)
    ensures Agrees(s.keyIndex.tree, s.revisionStore)
  {
    hide Run, CleanRun, LogAscends, Stores, Agrees;
    RunAscends(cs);
    AgreementHolds(s.keyIndex.tree, s.revisionStore, s.m);
  }
}

/** What the MVCC stores are meant to compute.

    `Replay` is the reference: the state of one key after a history of puts and deletes.
    `Machine` is the abstract store: a log of revision-stamped KeyValues plus the map of
    keys that are currently open. The imperative stores are proved to refine `Step`. */
module MvccSpec {
  import opened Bytes
  import opened Revisions

  datatype KeyValue = KeyValue(key: Key, value: seq<byte>, createRev: int, modRev: int, version: int, lease: int)

  datatype Write = Put(value: seq<byte>, lease: int) | Delete
  datatype Event = Event(rev: Revision, key: Key, write: Write)

  /** The value of k after history h; None when k was never put or its last event is a delete. */
  function Replay(h: seq<Event>, k: Key): Option<KeyValue>
  {
    if h == [] then None
    else
      var e := h[|h| - 1];
      var before := Replay(h[..|h| - 1], k);
      if e.key != k then before
      else if e.write.Delete? then None
      else if before.None? then Some(KeyValue(k, e.write.value, e.rev.main, e.rev.main, 1, e.write.lease))
      else Some(KeyValue(k, e.write.value, before.value.createRev, e.rev.main, before.value.version + 1, e.write.lease))
  }

  /** The part of the history a read at revision `at` may see. */
  function Visible(h: seq<Event>, at: Revision): seq<Event>
  {
    if h == [] then []
    else Visible(h[..|h| - 1], at) + (if h[|h| - 1].rev.AtMost(at) then [h[|h| - 1]] else [])
  }

  predicate HistoryAscends(h: seq<Event>) {
    forall i, j :: 0 <= i < j < |h| ==> h[i].rev.LessThan(h[j].rev)
  }

  // ---------------------------------------------------------------- applying events

  /** The KeyValue an event writes, given the open keys before it. Version 0 marks a tombstone. */
  function NewKv(live: map<Key, KeyValue>, e: Event): KeyValue
  {
    var open := e.key in live;
    match e.write
    case Put(v, l) =>
      KeyValue(e.key, v, if open then live[e.key].createRev else e.rev.main, e.rev.main,
               if open then live[e.key].version + 1 else 1, l)
    case Delete =>
      KeyValue(e.key, [], if open then live[e.key].createRev else 0, e.rev.main, 0, 0)
  }

  function LiveAfter1(live: map<Key, KeyValue>, e: Event): map<Key, KeyValue>
  {
    if e.write.Put? then live[e.key := NewKv(live, e)] else live - {e.key}
  }

  function LiveAfter(live: map<Key, KeyValue>, es: seq<Event>): map<Key, KeyValue>
  {
    if es == [] then live else LiveAfter1(LiveAfter(live, es[..|es| - 1]), es[|es| - 1])
  }

  datatype Entry = Entry(rev: Revision, kv: KeyValue)

  /** The log entries that the events leave behind. */
  function Entries(live: map<Key, KeyValue>, es: seq<Event>): (log: seq<Entry>)
    ensures |log| == |es|
    ensures forall i :: 0 <= i < |es| ==> log[i].rev == es[i].rev && log[i].kv.key == es[i].key
    ensures forall i :: 0 <= i < |es| ==> log[i].kv.modRev == es[i].rev.main
  {
    if es == [] then []
    else
      var n := |es| - 1;
      Entries(live, es[..n]) + [Entry(es[n].rev, NewKv(LiveAfter(live, es[..n]), es[n]))]
  }

  lemma {:induction false} LiveAfterConcat(live: map<Key, KeyValue>, a: seq<Event>, b: seq<Event>)
    ensures LiveAfter(live, a + b) == LiveAfter(LiveAfter(live, a), b)
  {
    if b == [] {
      assert a + b == a;
    } else {
      var n := |b| - 1;
      assert (a + b)[..|a + b| - 1] == a + b[..n];
      LiveAfterConcat(live, a, b[..n]);
    }
  }

  lemma EntriesSnoc(live: map<Key, KeyValue>, es: seq<Event>, e: Event)
    ensures Entries(live, es + [e]) == Entries(live, es) + [Entry(e.rev, NewKv(LiveAfter(live, es), e))]
  {
    hide LiveAfter, NewKv;
    assert (es + [e])[..|es|] == es;
  }

  lemma {:induction false} EntriesConcat(live: map<Key, KeyValue>, a: seq<Event>, b: seq<Event>)
    ensures Entries(live, a + b) == Entries(live, a) + Entries(LiveAfter(live, a), b)
  {
    hide LiveAfter, NewKv, Entries;
    if b == [] {
      assert a + b == a;
    } else {
      var n := |b| - 1;
      var pre, e := b[..n], b[n];
      assert b == pre + [e] && a + b == (a + pre) + [e];
      LiveAfterConcat(live, a, pre);
      EntriesConcat(live, a, pre);
      EntriesSnoc(live, a + pre, e);
      EntriesSnoc(LiveAfter(live, a), pre, e);
    }
  }

  // ---------------------------------------------------------------- reading a log

  /** The last entry of k at or below `at`. */
  function LastAt(log: seq<Entry>, k: Key, at: Revision): Option<Entry>
  {
    if log == [] then None
    else
      var e := log[|log| - 1];
      if e.kv.key == k && e.rev.AtMost(at) then Some(e) else LastAt(log[..|log| - 1], k, at)
  }

  function ReadAt(log: seq<Entry>, k: Key, at: Revision): Option<KeyValue>
  {
    var e := LastAt(log, k, at);
    if e.None? || e.value.kv.version == 0 then None else Some(e.value.kv)
  }

  /** The revisions of k, oldest first. */
  function KeyRevs(log: seq<Entry>, k: Key): (rs: seq<Revision>)
  {
    if log == [] then []
    else
      var e := log[|log| - 1];
      KeyRevs(log[..|log| - 1], k) + (if e.kv.key == k then [e.rev] else [])
  }

  /** The revision-keyed store: a later entry at the same revision replaces the earlier one. */
  function StoreOf(log: seq<Entry>): map<Revision, KeyValue>
  {
    if log == [] then map[]
    else
      var e := log[|log| - 1];
      StoreOf(log[..|log| - 1])[e.rev := e.kv]
  }

  predicate LogAscends(log: seq<Entry>) {
    forall i, j :: 0 <= i < j < |log| ==> log[i].rev.LessThan(log[j].rev)
  }

  lemma {:induction false} KeyRevsExact(log: seq<Entry>, k: Key, r: Revision)
    ensures r in KeyRevs(log, k) <==> exists i :: 0 <= i < |log| && log[i].kv.key == k && log[i].rev == r
  {
    if log != [] {
      var n := |log| - 1;
      var pre := log[..n];
      KeyRevsExact(pre, k, r);
      assert KeyRevs(log, k) == KeyRevs(pre, k) + (if log[n].kv.key == k then [log[n].rev] else []);
      assert forall i :: 0 <= i < n ==> pre[i] == log[i];
    }
  }

  lemma {:induction false} KeyRevsAscend(log: seq<Entry>, k: Key)
    requires LogAscends(log)
    ensures StrictlyAscending(KeyRevs(log, k))
  {
    if log != [] {
      var n := |log| - 1;
      KeyRevsAscend(log[..n], k);
      forall i | 0 <= i < |KeyRevs(log[..n], k)|
        ensures KeyRevs(log[..n], k)[i].LessThan(log[n].rev)
      {
        KeyRevsExact(log[..n], k, KeyRevs(log[..n], k)[i]);
      }
    }
  }

  lemma {:induction false} StoreOfKeys(log: seq<Entry>, r: Revision)
    ensures r in StoreOf(log) <==> exists i :: 0 <= i < |log| && log[i].rev == r
  {
    if log != [] {
      var n := |log| - 1;
      StoreOfKeys(log[..n], r);
      if exists i :: 0 <= i < |log| && log[i].rev == r {
        var i :| 0 <= i < |log| && log[i].rev == r;
        assert i < n ==> log[..n][i] == log[i];
      }
    }
  }

  /** In an ascending log nothing is overwritten. */
  lemma {:induction false} StoreOfAt(log: seq<Entry>, i: nat)
    requires LogAscends(log) && i < |log|
    ensures log[i].rev in StoreOf(log) && StoreOf(log)[log[i].rev] == log[i].kv
  {
    var n := |log| - 1;
    if i < n {
      StoreOfAt(log[..n], i);
      assert log[i].rev != log[n].rev;
    }
  }

  /** LastAt picks the newest entry of k that `at` can see. */
  lemma {:induction false} LastAtExact(log: seq<Entry>, k: Key, at: Revision)
    requires LogAscends(log)
    ensures match LastAt(log, k, at)
            case None => forall i :: 0 <= i < |log| && log[i].kv.key == k ==> at.LessThan(log[i].rev)
            case Some(e) => e in log && e.kv.key == k && e.rev.AtMost(at) &&
                            forall i :: 0 <= i < |log| && log[i].kv.key == k && log[i].rev.AtMost(at) ==> log[i].rev.AtMost(e.rev)
  {
    if log != [] {
      var n := |log| - 1;
      LastAtExact(log[..n], k, at);
      assert forall i :: 0 <= i < n ==> log[..n][i] == log[i];
    }
  }

  // ---------------------------------------------------------------- history refinement

  lemma {:induction false} LiveIsReplay(h: seq<Event>, k: Key)
    ensures Replay(h, k).Some? <==> k in LiveAfter(map[], h)
    ensures k in LiveAfter(map[], h) ==> Replay(h, k) == Some(LiveAfter(map[], h)[k])
    ensures k in LiveAfter(map[], h) ==> LiveAfter(map[], h)[k].version >= 1
  {
    if h != [] {
      LiveIsReplay(h[..|h| - 1], k);
    }
  }

  lemma {:induction false} VisibleAll(h: seq<Event>, at: Revision)
    requires forall i :: 0 <= i < |h| ==> h[i].rev.AtMost(at)
    ensures Visible(h, at) == h
  {
    if h != [] {
      VisibleAll(h[..|h| - 1], at);
    }
  }

  lemma ReadSnoc(log: seq<Entry>, e: Entry, k: Key, at: Revision)
    ensures ReadAt(log + [e], k, at) ==
            if e.kv.key != k || at.LessThan(e.rev) then ReadAt(log, k, at)
            else if e.kv.version == 0 then None else Some(e.kv)
  {
    assert (log + [e])[..|log|] == log;
  }

  lemma NewKvIsReplay(h: seq<Event>, e: Event)
    ensures var kv := NewKv(LiveAfter(map[], h), e);
            Replay(h + [e], e.key) == if kv.version == 0 then None else Some(kv)
  {
    assert (h + [e])[..|h|] == h;
    LiveIsReplay(h, e.key);
  }

  /** Whatever comes before a visible event is visible too. */
  predicate VisibleFirst(h: seq<Event>, at: Revision) {
    forall i, j :: 0 <= i < j < |h| && h[j].rev.AtMost(at) ==> h[i].rev.AtMost(at)
  }

  /** A read in the materialized log is a replay of the visible history. */
  lemma {:induction false} ReadIsReplay(h: seq<Event>, k: Key, at: Revision)
    requires VisibleFirst(h, at)
    ensures ReadAt(Entries(map[], h), k, at) == Replay(Visible(h, at), k)
  {
    hide Entries, Replay, ReadAt, LiveAfter, NewKv;
    if h == [] {
      NothingRead(k, at);
    } else {
      var n := |h| - 1;
      var h0, e := h[..n], h[n];
      assert h0 + [e] == h;
      ReadIsReplay(h0, k, at);
      EntriesSnoc(map[], h0, e);
      ReadSnoc(Entries(map[], h0), Entry(e.rev, NewKv(LiveAfter(map[], h0), e)), k, at);
      if e.rev.AtMost(at) {
        VisibleAll(h0, at);
        NewKvIsReplay(h0, e);
        ReplayElsewhere(h0, e, k);
      } else {
        assert Visible(h, at) == Visible(h0, at);
      }
    }
  }

  lemma NothingRead(k: Key, at: Revision)
    ensures ReadAt(Entries(map[], []), k, at) == None && Replay(Visible([], at), k) == None
  {
  }

  lemma ReplayElsewhere(h: seq<Event>, e: Event, k: Key)
    ensures e.key != k ==> Replay(h + [e], k) == Replay(h, k)
  {
    assert (h + [e])[..|h|] == h;
  }

  // ---------------------------------------------------------------- commands

  datatype Target = Version | CreateRev | ModRev
  datatype Comparison = IsEqual | IsNotEqual | IsLess | IsGreater
  datatype Condition =
    | IntCondition(key: Key, target: Target, cmp: Comparison, number: int)
    | ValueCondition(key: Key, cmp: Comparison, bytes: seq<byte>)

  predicate Holds(live: map<Key, KeyValue>, c: Condition) {
    match c
    case IntCondition(k, t, cmp, n) =>
      var actual :=
        if k !in live then 0
        else match t case Version => live[k].version case CreateRev => live[k].createRev case ModRev => live[k].modRev;
      (match cmp case IsEqual => actual == n case IsNotEqual => actual != n case IsLess => actual < n case IsGreater => actual > n)
    case ValueCondition(k, cmp, v) =>
      var actual := if k in live then live[k].value else [];
      (match cmp
       case IsEqual => actual == v
       case IsNotEqual => actual != v
       case IsLess => Less(actual, v)
       case IsGreater => Less(v, actual))
  }

  datatype Op =
    | PutOp(key: Key, value: seq<byte>, lease: int)
    | GetOp(key: Key, end: Option<Key>)
    | DeleteOp(key: Key)
    | DeleteRangeOp(key: Key, end: Option<Key>)

  predicate InRange(k: Key, start: Key, end: Option<Key>) {
    Leq(start, k) && (end.Some? ==> Less(k, end.value))
  }

  function RangeKeys(keys: set<Key>, start: Key, end: Option<Key>): (ks: seq<Key>)
  {
    Ascending(set k | k in keys && InRange(k, start, end))
  }

  /** One tombstone per key, on consecutive sub-revisions. */
  function DeleteEvents(ks: seq<Key>, base: Revision): (es: seq<Event>)
  {
    seq(|ks|, j requires 0 <= j < |ks| => Event(Revision(base.main, base.sub + j), ks[j], Delete))
  }

  function OpEvents(live: map<Key, KeyValue>, op: Op, rev: Revision): seq<Event>
  {
    match op
    case PutOp(k, v, l) => [Event(rev, k, Put(v, l))]
    case GetOp(_, _) => []
    case DeleteOp(k) => if k in live then [Event(rev, k, Delete)] else []
    case DeleteRangeOp(k, end) => DeleteEvents(RangeKeys(live.Keys, k, end), rev)
  }

  function Flatten(bs: seq<seq<Event>>): seq<Event>
  {
    if bs == [] then [] else Flatten(bs[..|bs| - 1]) + bs[|bs| - 1]
  }

  lemma FlattenSnoc(bs: seq<seq<Event>>, es: seq<Event>)
    ensures Flatten(bs + [es]) == Flatten(bs) + es
  {
    assert (bs + [es])[..|bs|] == bs;
  }

  /** The events of each of the first n operations of a transaction at main revision `main`;
      operation i works at sub-revision i, on the state its predecessors left. */
  function TxnBlocks(live: map<Key, KeyValue>, ops: seq<Op>, main: int, n: nat): (bs: seq<seq<Event>>)
    requires n <= |ops|
    ensures |bs| == n
  {
    if n == 0 then []
    else
      var before := TxnBlocks(live, ops, main, n - 1);
      before + [OpEvents(LiveAfter(live, Flatten(before)), ops[n - 1], Revision(main, n - 1))]
  }

  function TxnEvents(live: map<Key, KeyValue>, ops: seq<Op>, main: int, n: nat): seq<Event>
    requires n <= |ops|
  {
    Flatten(TxnBlocks(live, ops, main, n))
  }

  lemma TxnUnfold(live: map<Key, KeyValue>, ops: seq<Op>, main: int, n: nat, before: seq<Event>)
    requires 0 < n <= |ops|
    requires before == TxnEvents(live, ops, main, n - 1)
    ensures TxnEvents(live, ops, main, n) ==
            before + OpEvents(LiveAfter(live, before), ops[n - 1], Revision(main, n - 1))
  {
    FlattenSnoc(TxnBlocks(live, ops, main, n - 1), OpEvents(LiveAfter(live, before), ops[n - 1], Revision(main, n - 1)));
  }

  datatype Response = Response(kvs: seq<KeyValue>, deleted: int)

  function PresentKvs(live: map<Key, KeyValue>, ks: seq<Key>): seq<KeyValue>
  {
    if ks == [] then []
    else
      var k := ks[|ks| - 1];
      PresentKvs(live, ks[..|ks| - 1]) + (if k in live && live[k].version > 0 then [live[k]] else [])
  }

  function OpResponse(live: map<Key, KeyValue>, op: Op): Response
  {
    match op
    case PutOp(_, _, _) => Response([], 0)
    case GetOp(k, None) => Response(if k in live then [live[k]] else [], 0)
    case GetOp(k, Some(end)) => Response(PresentKvs(live, RangeKeys(live.Keys, k, Some(end))), 0)
    case DeleteOp(k) => Response([], if k in live then 1 else 0)
    case DeleteRangeOp(k, end) => Response([], |RangeKeys(live.Keys, k, end)|)
  }

  function TxnResponses(live: map<Key, KeyValue>, ops: seq<Op>, main: int, n: nat): seq<Response>
    requires n <= |ops|
  {
    if n == 0 then []
    else
      TxnResponses(live, ops, main, n - 1) +
      [OpResponse(LiveAfter(live, TxnEvents(live, ops, main, n - 1)), ops[n - 1])]
  }

  datatype Command =
    | CPut(key: Key, value: seq<byte>, lease: int)
    | CDelete(key: Key)
    | CDeleteRange(start: Key, end: Option<Key>)
    | CTxn(conds: seq<Condition>, thenOps: seq<Op>, elseOps: seq<Op>)
    | CCompact(rev: int)

  function ChosenOps(live: map<Key, KeyValue>, c: Command): seq<Op>
    requires c.CTxn?
  {
    if forall i :: 0 <= i < |c.conds| ==> Holds(live, c.conds[i]) then c.thenOps else c.elseOps
  }

  function CommandEvents(live: map<Key, KeyValue>, cur: Revision, c: Command): seq<Event>
  {
    var next := Revision(cur.main + 1, 0);
    match c
    case CPut(k, v, l) => if k == [] then [] else [Event(next, k, Put(v, l))]
    case CDelete(k) => if k == [] || k !in live then [] else [Event(next, k, Delete)]
    case CDeleteRange(s, end) => if s == [] then [] else DeleteEvents(RangeKeys(live.Keys, s, end), next)
    case CTxn(_, _, _) => var ops := ChosenOps(live, c); TxnEvents(live, ops, next.main, |ops|)
    case CCompact(_) => []
  }

  /** The generator after the command. A transaction leaves Sub at 0 whatever it wrote. */
  function CommandCur(live: map<Key, KeyValue>, cur: Revision, c: Command): Revision
  {
    var next := Revision(cur.main + 1, 0);
    match c
    case CPut(k, _, _) => if k == [] then cur else next
    case CDelete(k) => if k == [] || k !in live then cur else next
    case CDeleteRange(s, end) =>
      var n := |RangeKeys(live.Keys, s, end)|;
      if s == [] || n == 0 then cur else Revision(next.main, n - 1)
    case CTxn(_, _, _) => next
    case CCompact(_) => cur
  }

  datatype Machine = Machine(log: seq<Entry>, live: map<Key, KeyValue>, cur: Revision, compacted: Revision)

  const Init := Machine([], map[], Zero, Zero)

  function Retained(log: seq<Entry>, target: Revision): seq<Entry>
  {
    if log == [] then []
    else Retained(log[..|log| - 1], target) + (if log[|log| - 1].rev.LessThan(target) then [] else [log[|log| - 1]])
  }

  function LogKeys(log: seq<Entry>): set<Key> {
    set e | e in log :: e.kv.key
  }

  /** Compaction keeps the entries at or above the target and forgets which keys were deleted:
      every key that keeps an entry counts as open again, with its newest stored KeyValue. */
  function LiveOfLog(log: seq<Entry>): map<Key, KeyValue>
  {
    map k | k in LogKeys(log) && KeyRevs(log, k) != [] && KeyRevs(log, k)[|KeyRevs(log, k)| - 1] in StoreOf(log)
      :: StoreOf(log)[KeyRevs(log, k)[|KeyRevs(log, k)| - 1]]
  }

  predicate CanCompact(m: Machine, rev: int) {
    m.compacted.LessThan(Revision(rev, 0)) && Revision(rev, 0).AtMost(m.cur)
  }

  function Compacted(m: Machine, rev: int): Machine
  {
    if !CanCompact(m, rev) then m
    else
      var log := Retained(m.log, Revision(rev, 0));
      Machine(log, LiveOfLog(log), m.cur, Revision(rev, 0))
  }

  /** The machine after writing events at revisions the caller chose. */
  function Wrote(m: Machine, es: seq<Event>): Machine {
    m.(log := m.log + Entries(m.live, es), live := LiveAfter(m.live, es))
  }

  function Step(m: Machine, c: Command): Machine
  {
    if c.CCompact? then Compacted(m, c.rev)
    else
      var es := CommandEvents(m.live, m.cur, c);
      Machine(m.log + Entries(m.live, es), LiveAfter(m.live, es), CommandCur(m.live, m.cur, c), m.compacted)
  }

  function Run(cs: seq<Command>): Machine
  {
    if cs == [] then Init else Step(Run(cs[..|cs| - 1]), cs[|cs| - 1])
  }

  // ---------------------------------------------------------------- reads

  datatype Error = EmptyKey | Closed | CompactedRevision | FutureRevision | KeyNotFound
  datatype Result<+T> = Ok(value: T) | Err(error: Error)

  /** Revision 0 means the generator's current revision; any other number is taken at Sub 0. */
  function ReadRev(m: Machine, rev: int): Revision {
    if rev == 0 then m.cur else Revision(rev, 0)
  }

  function GetResult(m: Machine, k: Key, rev: int): Result<KeyValue>
  {
    var at := ReadRev(m, rev);
    if k == [] then Err(EmptyKey)
    else if at.LessThan(m.compacted) then Err(CompactedRevision)
    else if m.cur.LessThan(at) then Err(FutureRevision)
    else match ReadAt(m.log, k, at) case None => Err(KeyNotFound) case Some(kv) => Ok(kv)
  }

  /** The read as the store performs it: the newest visible revision of the key, then whatever the
      revision store holds under that revision. */
  function StoreReadAt(log: seq<Entry>, k: Key, at: Revision): Option<KeyValue>
  {
    var e := LastAt(log, k, at);
    if e.None? || e.value.rev !in StoreOf(log) || StoreOf(log)[e.value.rev].version == 0 then None
    else Some(StoreOf(log)[e.value.rev])
  }

  function StoreGet(m: Machine, k: Key, rev: int): Result<KeyValue>
  {
    var at := ReadRev(m, rev);
    if k == [] then Err(EmptyKey)
    else if at.LessThan(m.compacted) then Err(CompactedRevision)
    else if m.cur.LessThan(at) then Err(FutureRevision)
    else match StoreReadAt(m.log, k, at) case None => Err(KeyNotFound) case Some(kv) => Ok(kv)
  }

  function StoreReadAll(log: seq<Entry>, ks: seq<Key>, at: Revision): seq<KeyValue>
  {
    if ks == [] then []
    else
      var r := StoreReadAt(log, ks[|ks| - 1], at);
      StoreReadAll(log, ks[..|ks| - 1], at) + (if r.Some? then [r.value] else [])
  }

  function StoreRange(m: Machine, start: Key, end: Option<Key>, rev: int, limit: int): Result<seq<KeyValue>>
  {
    var at := ReadRev(m, rev);
    if start == [] then Err(EmptyKey)
    else if at.LessThan(m.compacted) then Err(CompactedRevision)
    else if m.cur.LessThan(at) then Err(FutureRevision)
    else Ok(Cut(StoreReadAll(m.log, RangeKeys(LogKeys(m.log), start, end), at), limit))
  }

  /** The values of ks at a revision, in order, absent keys left out. */
  function ReadAll(log: seq<Entry>, ks: seq<Key>, at: Revision): seq<KeyValue>
  {
    if ks == [] then []
    else
      var r := ReadAt(log, ks[|ks| - 1], at);
      ReadAll(log, ks[..|ks| - 1], at) + (if r.Some? then [r.value] else [])
  }

  function RangeResult(m: Machine, start: Key, end: Option<Key>, rev: int, limit: int): Result<seq<KeyValue>>
  {
    var at := ReadRev(m, rev);
    if start == [] then Err(EmptyKey)
    else if at.LessThan(m.compacted) then Err(CompactedRevision)
    else if m.cur.LessThan(at) then Err(FutureRevision)
    else Ok(Cut(ReadAll(m.log, RangeKeys(LogKeys(m.log), start, end), at), limit))
  }
}

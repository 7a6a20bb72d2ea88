/** Runs of the RocksDB-backed store against runs of the abstract store. */
module RocksRuns {
  import opened Bytes
  import opened Revisions
  import opened MvccSpec
  import opened MvccTheorems
  import opened MvccRuns
  import opened MvccReads
  import opened KeyIndexes
  import opened Codec
  import opened RocksStores

  // ---------------------------------------------------------------- one history, two logs

  /** What the RocksDB-backed store writes for an event, from the entries before it. */
  function RocksKv(log: seq<Entry>, e: Event): KeyValue {
    if e.write.Put? then PutKv(log, e.key, e.write.value, e.write.lease, e.rev) else TombKv(log, e.key, e.rev)
  }

  function RocksEntries(h: seq<Event>): (log: seq<Entry>)
    ensures |log| == |h|
    ensures forall i :: 0 <= i < |h| ==> log[i].rev == h[i].rev && log[i].kv.key == h[i].key
  {
    if h == [] then []
    else
      var before := RocksEntries(h[..|h| - 1]);
      before + [Entry(h[|h| - 1].rev, RocksKv(before, h[|h| - 1]))]
  }

  /** The main revision of the key's first event. */
  function FirstMain(h: seq<Event>, k: Key): int {
    if h == [] then 0
    else
      var before := FirstMain(h[..|h| - 1], k);
      if before == 0 && h[|h| - 1].key == k then h[|h| - 1].rev.main else before
  }

  predicate DeletedIn(h: seq<Event>, k: Key) {
    exists i :: 0 <= i < |h| && h[i].key == k && h[i].write.Delete?
  }

  /** Revisions ascend from main 1 on, and the events of one key are at different mains. */
  predicate Orderly(h: seq<Event>) {
    && (forall i :: 0 <= i < |h| ==> 1 <= h[i].rev.main)
    && (forall i, j :: 0 <= i < j < |h| ==> h[i].rev.LessThan(h[j].rev))
    && (forall i, j :: 0 <= i < j < |h| && h[i].key == h[j].key ==> h[i].rev.main < h[j].rev.main)
  }

  /** A history that deletes only keys that are present. */
  ghost predicate DeletesPresent(h: seq<Event>) {
    forall i :: 0 <= i < |h| && h[i].write.Delete? ==> h[i].key in LiveAfter(map[], h[..i])
  }

  /** The newest entry of a key. */
  function Newest(log: seq<Entry>, k: Key): Option<KeyValue> {
    if log == [] then None
    else if log[|log| - 1].kv.key == k then Some(log[|log| - 1].kv)
    else Newest(log[..|log| - 1], k)
  }

  lemma {:induction false} NewestIsLast(log: seq<Entry>, k: Key, at: Revision)
    requires forall i :: 0 <= i < |log| ==> log[i].rev.LessThan(at)
    ensures match LastAt(log, k, at)
            case None => Newest(log, k).None?
            case Some(e) => Newest(log, k) == Some(e.kv)
  {
    if log != [] {
      NewestIsLast(log[..|log| - 1], k, at);
    }
  }

  /** What both stores know of a key after the history. */
  ghost predicate Tracks(h: seq<Event>, k: Key) {
    var newest, live := Newest(RocksEntries(h), k), LiveAfter(map[], h);
    && (newest.None? <==> FirstMain(h, k) == 0)
    && (newest.Some? ==> newest.value.createRev == FirstMain(h, k) && newest.value.version == if k in live then live[k].version else 0)
    && (newest.None? ==> k !in live && !DeletedIn(h, k))
    && (k in live ==> if DeletedIn(h, k) then FirstMain(h, k) < live[k].createRev else FirstMain(h, k) == live[k].createRev)
    && (newest.Some? && k !in live ==> DeletedIn(h, k))
    && FirstMain(h, k) >= 0
  }

  lemma FirstMainBefore(h: seq<Event>, k: Key, e: Event)
    requires Orderly(h + [e]) && FirstMain(h, k) > 0 && e.key == k
    ensures FirstMain(h, k) < e.rev.main
  {
    var i := FirstMainAt(h, k);
    assert (h + [e])[i] == h[i] && (h + [e])[|h|] == e;
  }

  lemma {:induction false} FirstMainAt(h: seq<Event>, k: Key) returns (i: nat)
    requires FirstMain(h, k) > 0
    ensures i < |h| && h[i].key == k && h[i].rev.main == FirstMain(h, k)
  {
    var n := |h| - 1;
    if FirstMain(h[..n], k) > 0 {
      i := FirstMainAt(h[..n], k);
    } else {
      i := n;
    }
  }

  lemma DeletedSnoc(h: seq<Event>, e: Event, k: Key)
    ensures DeletedIn(h + [e], k) <==> DeletedIn(h, k) || (e.key == k && e.write.Delete?)
  {
    var w := h + [e];
    if DeletedIn(h, k) {
      var i :| 0 <= i < |h| && h[i].key == k && h[i].write.Delete?;
      assert w[i] == h[i];
    }
    assert w[|h|] == e;
  }

  lemma OrderlyPrefix(h: seq<Event>, n: nat)
    requires Orderly(h) && n <= |h|
    ensures Orderly(h[..n])
  {
  }

  lemma PresentPrefix(h: seq<Event>, n: nat)
    requires DeletesPresent(h) && n <= |h|
    ensures DeletesPresent(h[..n])
  {
    forall i | 0 <= i < n && h[..n][i].write.Delete?
      ensures h[..n][i].key in LiveAfter(map[], h[..n][..i])
    {
      assert h[..n][..i] == h[..i];
    }
  }

  /** One event more: what the store writes for it, next to what the specification writes. */
  lemma EntryStep(h: seq<Event>, e: Event)
    requires Orderly(h + [e]) && Tracks(h, e.key)
    requires e.write.Delete? ==> e.key in LiveAfter(map[], h)
    ensures var a, b := RocksKv(RocksEntries(h), e), NewKv(LiveAfter(map[], h), e);
            && a.(createRev := 0) == b.(createRev := 0)
            && a.createRev == (if FirstMain(h, e.key) == 0 then e.rev.main else FirstMain(h, e.key))
            && (a.createRev == b.createRev <==> !DeletedIn(h, e.key))
            && (DeletedIn(h, e.key) ==> a.createRev < b.createRev)
  {
    hide LiveAfter, DeletedIn, FirstMain, RocksEntries, Newest, LastAt;
    var log := RocksEntries(h);
    forall i | 0 <= i < |log|
      ensures log[i].rev.LessThan(e.rev)
    {
      assert (h + [e])[i] == h[i] && (h + [e])[|h|] == e;
    }
    NewestIsLast(log, e.key, e.rev);
    if FirstMain(h, e.key) > 0 {
      FirstMainBefore(h, e.key, e);
    }
  }

  lemma TracksStep(h: seq<Event>, e: Event, k: Key)
    requires Orderly(h + [e]) && Tracks(h, k)
    requires e.write.Delete? ==> e.key in LiveAfter(map[], h)
    ensures Tracks(h + [e], k)
  {
    hide LiveAfter, DeletedIn, FirstMain, RocksEntries, Newest, RocksKv, NewKv;
    Unfolds(h, e, k);
    DeletedSnoc(h, e, k);
    if e.key == k {
      EntryStep(h, e);
      NewVersions(LiveAfter(map[], h), e);
      assert (h + [e])[|h|] == e;
    }
  }

  lemma NewVersions(live: map<Key, KeyValue>, e: Event)
    ensures e.write.Delete? ==> NewKv(live, e).version == 0
  {
  }

  lemma Unfolds(h: seq<Event>, e: Event, k: Key)
    ensures Newest(RocksEntries(h + [e]), k) == if e.key == k then Some(RocksKv(RocksEntries(h), e)) else Newest(RocksEntries(h), k)
    ensures FirstMain(h + [e], k) == if FirstMain(h, k) == 0 && e.key == k then e.rev.main else FirstMain(h, k)
    ensures LiveAfter(map[], h + [e]) == LiveAfter1(LiveAfter(map[], h), e)
  {
    assert (h + [e])[..|h|] == h;
    var log := RocksEntries(h + [e]);
    assert log[..|h|] == RocksEntries(h);
  }

  lemma {:induction false} TracksAll(h: seq<Event>, k: Key)
    requires Orderly(h) && DeletesPresent(h)
    ensures Tracks(h, k)
  {
    hide Orderly, Tracks, LiveAfter;
    if h == [] {
      TracksNothing(k);
    } else {
      var n := |h| - 1;
      OrderlyPrefix(h, n);
      PresentPrefix(h, n);
      TracksAll(h[..n], k);
      assert h == h[..n] + [h[n]];
      TracksStep(h[..n], h[n], k);
    }
  }

  lemma TracksNothing(k: Key)
    ensures Tracks([], k)
  {
  }

  lemma {:induction false} RocksEntryAt(h: seq<Event>, i: nat)
    requires i < |h|
    ensures RocksEntries(h)[i].kv == RocksKv(RocksEntries(h[..i]), h[i])
    ensures Entries(map[], h)[i].kv == NewKv(LiveAfter(map[], h[..i]), h[i])
  {
    hide RocksKv, NewKv;
    if i < |h| - 1 {
      RocksEntryAt(h[..|h| - 1], i);
      assert h[..|h| - 1][..i] == h[..i];
    }
  }

  /** Entry by entry: the same but for the create revision, which is the key's first revision ever, and
      so the create revision of the specification if and only if the key had not been deleted before. */
  lemma HistoryAgreement(h: seq<Event>, i: nat)
    requires Orderly(h) && DeletesPresent(h) && i < |h|
    ensures var a, b := RocksEntries(h)[i].kv, Entries(map[], h)[i].kv;
            && a.(createRev := 0) == b.(createRev := 0)
            && (a.createRev == b.createRev <==> !DeletedIn(h[..i], h[i].key))
            && (DeletedIn(h[..i], h[i].key) ==> a.createRev < b.createRev)
  {
    hide Tracks, LiveAfter, DeletedIn, FirstMain, RocksEntries, Entries, RocksKv, NewKv;
    OrderlyPrefix(h, i);
    OrderlyPrefix(h, i + 1);
    PresentPrefix(h, i);
    TracksAll(h[..i], h[i].key);
    assert h[..i + 1] == h[..i] + [h[i]];
    RocksEntryAt(h, i);
    EntryStep(h[..i], h[i]);
  }

  // ---------------------------------------------------------------- runs

  /** The commands both stores are compared on. */
  predicate Plain(cs: seq<Command>) {
    forall i :: 0 <= i < |cs| ==> cs[i].CPut? || cs[i].CDelete? || cs[i].CDeleteRange?
  }

  datatype Rocks = Rocks(log: seq<Entry>, cur: Revision)

  function OpenIn(log: seq<Entry>): set<Key> {
    set k | k in LogKeys(log) && Newest(log, k).Some? && Newest(log, k).value.version != 0
  }

  /** One command on the RocksDB-backed store. */
  function RocksStep(m: Rocks, c: Command): Rocks
  {
    var next := Revision(m.cur.main + 1, 0);
    match c
    case CPut(k, v, l) =>
      if k == [] then m else Rocks(m.log + [Entry(next, PutKv(m.log, k, v, l, next))], next)
    case CDelete(k) =>
      if k == [] || k !in OpenIn(m.log) then m else Rocks(m.log + [Entry(next, TombKv(m.log, k, next))], next)
    case CDeleteRange(s, end) =>
      var keys := RangeKeys(OpenIn(m.log), s, end);
      if s == [] || keys == [] then m
      else Rocks(Tombstoned(m.log, keys, next.main, |keys|), Revision(next.main, |keys| - 1))
    case _ => m
  }

  function RocksRun(cs: seq<Command>): Rocks {
    if cs == [] then Rocks([], Zero) else RocksStep(RocksRun(cs[..|cs| - 1]), cs[|cs| - 1])
  }

  lemma {:induction false} RocksEntriesConcat(h: seq<Event>, ks: seq<Key>, main: int, n: nat)
    requires n <= |ks|
    ensures RocksEntries(h + DeleteEvents(ks, Revision(main, 0))[..n]) == Tombstoned(RocksEntries(h), ks, main, n)
  {
    hide TombKv, PutKv;
    var es := DeleteEvents(ks, Revision(main, 0));
    if n == 0 {
      assert h + es[..0] == h;
    } else {
      RocksEntriesConcat(h, ks, main, n - 1);
      var w := h + es[..n];
      assert w[..|w| - 1] == h + es[..n - 1] && w[|w| - 1] == es[n - 1];
    }
  }

  lemma {:induction false} NewestInLog(log: seq<Entry>, k: Key)
    ensures Newest(log, k).Some? <==> k in LogKeys(log)
  {
    if log != [] {
      var n := |log| - 1;
      NewestInLog(log[..n], k);
      assert log == log[..n] + [log[n]];
      assert LogKeys(log) == LogKeys(log[..n]) + {log[n].kv.key};
    }
  }

  /** The keys the index holds open are the keys the specification holds open. */
  lemma OpenIsPresent(h: seq<Event>)
    requires Orderly(h) && DeletesPresent(h)
    ensures OpenIn(RocksEntries(h)) == LiveAfter(map[], h).Keys
  {
    hide Orderly, DeletesPresent, LiveAfter, DeletedIn, FirstMain, RocksEntries, Newest;
    var log := RocksEntries(h);
    forall k
      ensures k in OpenIn(log) <==> k in LiveAfter(map[], h)
    {
      TracksAll(h, k);
      NewestInLog(log, k);
      LiveIsReplay(h, k);
    }
  }

  lemma StepAgrees(r: Reference, c: Command)
    requires Orderly(r.hist) && DeletesPresent(r.hist) && Plain([c])
    ensures RocksStep(Rocks(RocksEntries(r.hist), r.cur), c) == Rocks(RocksEntries(RefStep(r, c).hist), RefStep(r, c).cur)
  {
    hide Orderly, DeletesPresent, LiveAfter, RocksEntries, Present, OpenIn, RangeKeys, DeleteEvents, PutKv, TombKv, Tombstoned;
    var h := r.hist;
    assert [c][0] == c;
    OpenIsPresent(h);
    PresentIsLive(h);
    var live := Present(h);
    var next := Revision(r.cur.main + 1, 0);
    if c.CDeleteRange? {
      var ks := RangeKeys(live.Keys, c.start, c.end);
      TombstonePerKey(ks, next);
      RocksEntriesConcat(h, ks, next.main, |ks|);
      assert DeleteEvents(ks, next)[..|ks|] == DeleteEvents(ks, next);
      assert h + [] == h;
    } else {
      assert h + [] == h;
      OneEvent(h, Event(next, c.key, if c.CPut? then Put(c.value, c.lease) else Delete));
    }
  }

  lemma OneEvent(h: seq<Event>, e: Event)
    ensures RocksEntries(h + [e]) == RocksEntries(h) + [Entry(e.rev, RocksKv(RocksEntries(h), e))]
  {
    assert (h + [e])[..|h|] == h;
  }

  /** The events of one plain command: at the next main, consecutive subs, different keys. */
  predicate Batch(es: seq<Event>, main: int) {
    && (forall i :: 0 <= i < |es| ==> es[i].rev == Revision(main, i))
    && (forall i, j :: 0 <= i < j < |es| ==> es[i].key != es[j].key)
  }

  lemma PlainBatch(live: map<Key, KeyValue>, cur: Revision, c: Command)
    requires Plain([c])
    ensures var es := CommandEvents(live, cur, c);
            Batch(es, cur.main + 1) && forall i :: 0 <= i < |es| && es[i].write.Delete? ==> es[i].key in live
  {
    hide RangeKeys, DeleteEvents;
    assert [c][0] == c;
    if c.CDeleteRange? {
      SweepBatch(live.Keys, c.start, c.end, Revision(cur.main + 1, 0));
    }
  }

  lemma SweepBatch(keys: set<Key>, start: Key, end: Option<Key>, base: Revision)
    requires base.sub == 0
    ensures var es := DeleteEvents(RangeKeys(keys, start, end), base);
            Batch(es, base.main) && forall i :: 0 <= i < |es| ==> es[i].key in keys
  {
    var ks := RangeKeys(keys, start, end);
    hide RangeKeys;
    RangeKeysIn(keys, start, end);
    forall i, j | 0 <= i < j < |ks|
      ensures ks[i] != ks[j]
    {
      if ks[i] == ks[j] {
        SortedDistinct(ks, i, j);
      }
    }
  }

  lemma RangeKeysIn(keys: set<Key>, start: Key, end: Option<Key>)
    ensures Sorted(RangeKeys(keys, start, end))
    ensures forall i :: 0 <= i < |RangeKeys(keys, start, end)| ==> RangeKeys(keys, start, end)[i] in keys
  {
    var ks := RangeKeys(keys, start, end);
    assert forall i :: 0 <= i < |ks| ==> ks[i] in ks;
  }

  lemma OrderlyAppend(h: seq<Event>, es: seq<Event>, main: int)
    requires Orderly(h) && Batch(es, main) && 1 <= main && forall i :: 0 <= i < |h| ==> h[i].rev.main < main
    ensures Orderly(h + es)
  {
  }

  lemma {:induction false} StillLive(live: map<Key, KeyValue>, es: seq<Event>, k: Key)
    requires k in live && forall i :: 0 <= i < |es| ==> es[i].key != k
    ensures k in LiveAfter(live, es)
  {
    if es != [] {
      StillLive(live, es[..|es| - 1], k);
    }
  }

  lemma PresentAppend(h: seq<Event>, es: seq<Event>, main: int)
    requires DeletesPresent(h) && Batch(es, main)
    requires forall i :: 0 <= i < |es| && es[i].write.Delete? ==> es[i].key in LiveAfter(map[], h)
    ensures DeletesPresent(h + es)
  {
    hide LiveAfter;
    var w := h + es;
    forall i | 0 <= i < |w| && w[i].write.Delete?
      ensures w[i].key in LiveAfter(map[], w[..i])
    {
      if i < |h| {
        assert w[..i] == h[..i];
      } else {
        var a := i - |h|;
        assert w[i] == es[a] && w[..i] == h + es[..a];
        LiveAfterConcat(map[], h, es[..a]);
        StillLive(LiveAfter(map[], h), es[..a], es[a].key);
      }
    }
  }

  lemma PlainPrefix(cs: seq<Command>)
    requires Plain(cs) && cs != []
    ensures Plain(cs[..|cs| - 1]) && Plain([cs[|cs| - 1]]) && NoCompaction(cs)
  {
  }

  lemma {:induction false} PlainRun(cs: seq<Command>)
    requires Plain(cs)
    ensures Orderly(RefRun(cs).hist) && DeletesPresent(RefRun(cs).hist)
    ensures RocksRun(cs) == Rocks(RocksEntries(RefRun(cs).hist), RefRun(cs).cur)
  {
    hide Orderly, DeletesPresent, CommandEvents, Present, LiveAfter, RocksStep, Batch, RocksEntries;
    if cs == [] {
      NothingHappened();
    } else {
      var pre, c := cs[..|cs| - 1], cs[|cs| - 1];
      PlainPrefix(cs);
      PlainRun(pre);
      var r := RefRun(pre);
      StepAgrees(r, c);
      RunRefOk(pre);
      PresentIsLive(r.hist);
      PlainBatch(Present(r.hist), r.cur, c);
      OrderlyAppend(r.hist, CommandEvents(Present(r.hist), r.cur, c), r.cur.main + 1);
      PresentAppend(r.hist, CommandEvents(Present(r.hist), r.cur, c), r.cur.main + 1);
    }
  }

  lemma NothingHappened()
    ensures Orderly([]) && DeletesPresent([]) && RocksEntries([]) == []
  {
  }

  /** A tombstone of the key among the first i entries. */
  predicate TombstoneBefore(log: seq<Entry>, i: nat, k: Key)
    requires i <= |log|
  {
    exists j :: 0 <= j < i && log[j].kv.key == k && log[j].kv.version == 0
  }

  /** Both stores through the same commands: the same revisions and the same versions; only create
      revisions can differ. */
  lemma SameRuns(cs: seq<Command>)
    requires Plain(cs)
    ensures var a, b := RocksRun(cs), Run(cs);
            && a.cur == b.cur && |a.log| == |b.log|
            && forall i :: 0 <= i < |a.log| ==> a.log[i].rev == b.log[i].rev && a.log[i].kv.(createRev := 0) == b.log[i].kv.(createRev := 0)
  {
    hide Run, RefRun, RocksRun, RocksEntries, Entries, DeletesPresent, Orderly, DeletedIn;
    var h := RefRun(cs).hist;
    PlainRun(cs);
    RunSimulates(cs);
    forall i | 0 <= i < |h|
      ensures RocksEntries(h)[i].kv.(createRev := 0) == Entries(map[], h)[i].kv.(createRev := 0)
    {
      HistoryAgreement(h, i);
    }
  }

  /** The create revisions of an entry agree if and only if no earlier entry of its key is a tombstone:
      the RocksDB-backed store carries the create revision of the first life through every later one. */
  lemma CreateRevisionsDifferExactly(cs: seq<Command>, i: nat)
    requires Plain(cs) && i < |RocksRun(cs).log|
    ensures var a, b := RocksRun(cs).log, Run(cs).log;
            && i < |b|
            && (a[i].kv.createRev == b[i].kv.createRev <==> !TombstoneBefore(b, i, b[i].kv.key))
            && (TombstoneBefore(b, i, b[i].kv.key) ==> a[i].kv.createRev < b[i].kv.createRev)
  {
    hide Run, RefRun, RocksRun, RocksEntries, Entries, DeletesPresent, Orderly, DeletedIn, TombstoneBefore;
    var h := RefRun(cs).hist;
    PlainRun(cs);
    RunSimulates(cs);
    HistoryAgreement(h, i);
    TombstonesAreDeletes(h, i, h[i].key);
  }

  lemma TombstonesAreDeletes(h: seq<Event>, i: nat, k: Key)
    requires i <= |h|
    ensures DeletedIn(h[..i], k) <==> TombstoneBefore(Entries(map[], h), i, k)
  {
    hide Entries;
    var log := Entries(map[], h);
    forall j | 0 <= j < i
      ensures log[j].kv.version == 0 <==> h[j].write.Delete?
    {
      EntryKind(h, j);
    }
    if DeletedIn(h[..i], k) {
      var j :| 0 <= j < i && h[..i][j].key == k && h[..i][j].write.Delete?;
      assert log[j].kv.key == k;
    }
    if TombstoneBefore(log, i, k) {
      var j :| 0 <= j < i && log[j].kv.key == k && log[j].kv.version == 0;
      assert h[..i][j] == h[j];
    }
  }

  // ---------------------------------------------------------------- a second life

  const SecondLife := [CPut([1], [], 0), CDelete([1]), CPut([1], [], 0), CPut([1], [], 0)]

  lemma RunsSnoc(cs: seq<Command>, c: Command)
    ensures Run(cs + [c]) == Step(Run(cs), c) && RocksRun(cs + [c]) == RocksStep(RocksRun(cs), c)
  {
    assert (cs + [c])[..|cs|] == cs;
  }

  lemma NothingRun()
    ensures Run([]) == Init && RocksRun([]) == Rocks([], Zero)
  {
  }

  lemma SecondLifeInMemory()
    ensures Run(SecondLife).log == [OneVersion(1, 1, 1), OneVersion(1, 2, 0), OneVersion(3, 3, 1), OneVersion(3, 4, 2)]
  {
    hide Step, Run;
    var put, first := CPut([1], [], 0), [CPut([1], [], 0), CDelete([1])];
    FirstLifeInMemory();
    RunsSnoc(first, put);
    RunsSnoc(first + [put], put);
    var m := Run(first);
    StepOne(m, put, Event(Revision(3, 0), [1], Put([], 0)));
    StepOne(Step(m, put), put, Event(Revision(4, 0), [1], Put([], 0)));
    assert first + [put] + [put] == SecondLife;
  }

  lemma LastOfOne(log: seq<Entry>, e: Entry, at: Revision)
    requires e.kv.key == [1] && e.rev.AtMost(at)
    ensures LastAt(log + [e], [1], at) == Some(e) && Newest(log + [e], [1]) == Some(e.kv) && [1] in LogKeys(log + [e])
  {
    assert e in log + [e];
  }

  lemma OverOne(log: seq<Entry>, e: Entry, main: int)
    requires e.kv.key == [1] && e.rev == Revision(main, 0)
    ensures RocksStep(Rocks(log + [e], e.rev), CPut([1], [], 0)) ==
            Rocks(log + [e] + [OneVersion(e.kv.createRev, main + 1, e.kv.version + 1)], Revision(main + 1, 0))
    ensures e.kv.version != 0 ==>
              RocksStep(Rocks(log + [e], e.rev), CDelete([1])) ==
              Rocks(log + [e] + [OneVersion(e.kv.createRev, main + 1, 0)], Revision(main + 1, 0))
  {
    hide LastAt, Newest, LogKeys;
    LastOfOne(log, e, Revision(main + 1, 0));
  }

  lemma FirstLifeOnDisk()
    ensures RocksRun([CPut([1], [], 0), CDelete([1])]) == Rocks([OneVersion(1, 1, 1)] + [OneVersion(1, 2, 0)], Revision(2, 0))
  {
    hide RocksRun, RocksStep;
    var put, delete := CPut([1], [], 0), CDelete([1]);
    NothingRun();
    RunsSnoc([], put);
    RunsSnoc([put], delete);
    FirstPut();
    OverOne([], OneVersion(1, 1, 1), 1);
    assert [] + [OneVersion(1, 1, 1)] == [OneVersion(1, 1, 1)] && [] + [put] == [put] && [put] + [delete] == [put, delete];
  }

  lemma FirstPut()
    ensures RocksStep(Rocks([], Zero), CPut([1], [], 0)) == Rocks([OneVersion(1, 1, 1)], Revision(1, 0))
  {
  }

  lemma SecondLifeOnDisk()
    ensures RocksRun(SecondLife).log == [OneVersion(1, 1, 1), OneVersion(1, 2, 0), OneVersion(1, 3, 1), OneVersion(1, 4, 2)]
  {
    hide RocksRun, RocksStep;
    var put, first := CPut([1], [], 0), [CPut([1], [], 0), CDelete([1])];
    FirstLifeOnDisk();
    RunsSnoc(first, put);
    RunsSnoc(first + [put], put);
    OverOne([OneVersion(1, 1, 1)], OneVersion(1, 2, 0), 2);
    OverOne([OneVersion(1, 1, 1)] + [OneVersion(1, 2, 0)], OneVersion(1, 3, 1), 3);
    assert first + [put] + [put] == SecondLife;
  }

  /** Put, delete, put, put: both entries of the second life carry create revision 1 in the
      RocksDB-backed store and 3 in the in-memory one, although the newest entry before the last put
      is no tombstone. */
  lemma SecondLifeKeepsFirstCreation()
    ensures var a, b := RocksRun(SecondLife).log, Run(SecondLife).log;
            && |a| == 4 && |b| == 4
            && a[2].kv.createRev == 1 && b[2].kv.createRev == 3
            && a[3].kv.createRev == 1 && b[3].kv.createRev == 3
  {
    hide Run, RocksRun;
    SecondLifeInMemory();
    SecondLifeOnDisk();
  }

  // ---------------------------------------------------------------- the store itself

  /** The keys the run has put. */
  function PutKeys(cs: seq<Command>): (s: set<Key>)
    ensures |s| <= |cs|
  {
    if cs == [] then {}
    else
      var before, c := PutKeys(cs[..|cs| - 1]), cs[|cs| - 1];
      if c.CPut? then before + {c.key} else before
  }

  /** The index's open keys, read off the log. */
  lemma {:induction false} OpenInIndex(ms: seq<Entry>, k: Key)
    ensures k in OpenKeys(FoldMarks(MarksOf(ms))) <==> k in OpenIn(ms)
    ensures k in FoldMarks(MarksOf(ms)) ==> k in LogKeys(ms)
  {
    if ms == [] {
      assert MarksOf(ms) == [];
    } else {
      var n := |ms| - 1;
      OpenInIndex(ms[..n], k);
      assert ms == ms[..n] + [ms[n]];
      MarksSnoc(ms[..n], ms[n]);
      assert LogKeys(ms) == LogKeys(ms[..n]) + {ms[n].kv.key};
    }
  }

  lemma {:induction false} TombstonedKeys(log: seq<Entry>, keys: seq<Key>, main: int, n: nat, all: set<Key>)
    requires n <= |keys| && LogKeys(log) <= all && forall k :: k in keys ==> k in all
    ensures LogKeys(Tombstoned(log, keys, main, n)) <= all
  {
    if n > 0 {
      TombstonedKeys(log, keys, main, n - 1, all);
      KeysSnoc(Tombstoned(log, keys, main, n - 1), Entry(Revision(main, n - 1), TombKv(Tombstoned(log, keys, main, n - 1), keys[n - 1], Revision(main, n - 1))));
    }
  }

  lemma KeysSnoc(log: seq<Entry>, e: Entry)
    ensures LogKeys(log + [e]) == LogKeys(log) + {e.kv.key}
  {
  }

  lemma {:induction false} RunBounds(cs: seq<Command>)
    ensures LogKeys(RocksRun(cs).log) <= PutKeys(cs)
    ensures 0 <= RocksRun(cs).cur.main <= |cs|
  {
    hide Newest, Tombstoned, RangeKeys, PutKv, TombKv;
    if cs != [] {
      var pre, c := cs[..|cs| - 1], cs[|cs| - 1];
      RunBounds(pre);
      StepKeys(RocksRun(pre), c, PutKeys(cs));
    }
  }

  lemma StepKeys(m: Rocks, c: Command, all: set<Key>)
    requires LogKeys(m.log) <= all && (c.CPut? ==> c.key in all)
    ensures LogKeys(RocksStep(m, c).log) <= all
  {
    hide Newest, Tombstoned, PutKv, TombKv, LogKeys;
    var next := Revision(m.cur.main + 1, 0);
    OpenInLog(m.log);
    match c
    case CPut(k, v, l) => KeysSnoc(m.log, Entry(next, PutKv(m.log, k, v, l, next))); PutKeyIs(m.log, k, v, l, next);
    case CDelete(k) => KeysSnoc(m.log, Entry(next, TombKv(m.log, k, next))); TombKeyIs(m.log, k, next);
    case CDeleteRange(s, end) =>
      var keys := RangeKeys(OpenIn(m.log), s, end);
      TombstonedKeys(m.log, keys, next.main, |keys|, all);
    case CTxn(_, _, _) =>
    case CCompact(_) =>
  }

  lemma OpenInLog(log: seq<Entry>)
    ensures OpenIn(log) <= LogKeys(log)
  {
  }

  lemma PutKeyIs(log: seq<Entry>, k: Key, v: seq<byte>, l: int, rev: Revision)
    ensures PutKv(log, k, v, l, rev).key == k
  {
  }

  lemma TombKeyIs(log: seq<Entry>, k: Key, rev: Revision)
    ensures TombKv(log, k, rev).key == k
  {
  }

  /** What the store's contracts need from the log. */
  lemma IndexOfRun(cs: seq<Command>, tree: map<Key, KeyItem>, log: seq<Entry>)
    requires log == RocksRun(cs).log && tree == FoldMarks(MarksOf(log))
    ensures OpenKeys(tree) == OpenIn(log) && |tree| <= |cs|
  {
    hide RocksRun, FoldMarks, OpenIn, LogKeys, PutKeys, MarksOf, OpenKeys;
    forall k
      ensures k in OpenKeys(tree) <==> k in OpenIn(log)
      ensures k in tree ==> k in LogKeys(log)
    {
      OpenInIndex(log, k);
    }
    RunBounds(cs);
    SubsetSize(tree.Keys, PutKeys(cs));
    assert |tree| == |tree.Keys|;
  }

  method Apply(s: RocksStore, c: Command)
    requires s.Valid() && !s.closed && Plain([c]) && s.currentRev.main + 1 < TWO63 && |s.keyIndex.tree| < TWO63
    requires OpenKeys(s.keyIndex.tree) == OpenIn(s.log)
    modifies s, s.keyIndex
    ensures s.Valid() && !s.closed && Rocks(s.log, s.currentRev) == RocksStep(old(Rocks(s.log, s.currentRev)), c)
  {
    hide KvInv, MetaHolds, PutKv, TombKv, Tombstoned, RangeKeys, OpenIn;
    assert [c][0] == c;
    match c {
      case CPut(k, v, l) => var _ := s.Put(k, v, l);
      case CDelete(k) => var _ := s.Delete(k);
      case CDeleteRange(start, end) => var _ := s.DeleteRange(start, end);
    }
  }

  /** A fresh database driven through the commands ends with the predicted versions. */
  method Execute(cs: seq<Command>) returns (s: RocksStore)
    requires Plain(cs) && |cs| < TWO63
    ensures fresh(s) && s.Valid() && s.log == RocksRun(cs).log && s.currentRev == RocksRun(cs).cur
  {
    hide RocksRun, RocksStep, KvInv, MetaHolds, OpenKeys, OpenIn, FoldMarks, MarksOf, Run, PutKeys, LogKeys;
    s := NewStore();
    NothingRun();
    var i := 0;
    while i < |cs|
      invariant 0 <= i <= |cs| && fresh(s) && fresh(s.keyIndex) && s.Valid() && !s.closed
      invariant Rocks(s.log, s.currentRev) == RocksRun(cs[..i])
    {
      ReadyFor(s, cs[..i]);
      assert cs[..i + 1] == cs[..i] + [cs[i]];
      RunsSnoc(cs[..i], cs[i]);
      Apply(s, cs[i]);
      i := i + 1;
    }
    assert cs[..i] == cs;
  }

  /** What the store's methods need before the next command. */
  lemma ReadyFor(s: RocksStore, cs: seq<Command>)
    requires s.Valid() && Rocks(s.log, s.currentRev) == RocksRun(cs)
    ensures s.currentRev.main <= |cs| && |s.keyIndex.tree| <= |cs| && OpenKeys(s.keyIndex.tree) == OpenIn(s.log)
  {
    hide RocksRun, KvInv, MetaHolds, OpenKeys, OpenIn, FoldMarks, MarksOf, PutKeys, LogKeys;
    RunBounds(cs);
    IndexIsFold(s.db, s.keyIndex.tree, s.log, s.currentRev);
    IndexOfRun(cs, s.keyIndex.tree, s.log);
  }

  lemma IndexIsFold(db: Db, tree: map<Key, KeyItem>, log: seq<Entry>, cur: Revision)
    requires KvInv(db, tree, log, cur)
    ensures tree == FoldMarks(MarksOf(log))
  {
  }

  /** Run the commands, then restart: the reopened store holds the versions of the abstract run, up to
      create revisions. */
  method RestartAfter(cs: seq<Command>) returns (t: RocksStore)
    requires Plain(cs) && |cs| < TWO63
    ensures fresh(t) && t.Valid() && t.currentRev == Run(cs).cur && |t.log| == |Run(cs).log|
    ensures forall i :: 0 <= i < |t.log| ==>
              t.log[i].rev == Run(cs).log[i].rev && t.log[i].kv.(createRev := 0) == Run(cs).log[i].kv.(createRev := 0)
  {
    hide RocksRun, Run, KvInv, MetaHolds;
    var s := Execute(cs);
    SameRuns(cs);
    t := Restart(s);
  }
}

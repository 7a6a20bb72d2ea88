/** What a compaction does to reads and to deletes, in every run, shared revisions included. */
module MvccCompaction {
  import opened Bytes
  import opened Revisions
  import opened MvccSpec
  import opened MvccTheorems
  import opened MvccRuns
  import opened MvccReads
  import MemoryStores

  // ---------------------------------------------------------------- main revisions never fall

  predicate MainsRise(log: seq<Entry>) {
    && (forall i :: 0 <= i < |log| ==> 0 <= log[i].rev.sub)
    && (forall i, j :: 0 <= i < j < |log| ==> log[i].rev.main <= log[j].rev.main)
  }

  lemma AppendRises(m: Machine, es: seq<Event>)
    requires Inv(m) && MainsRise(m.log) && AtMain(es, m.cur.main + 1)
    ensures MainsRise(m.log + Entries(m.live, es))
  {
    hide Entries, Coherent;
  }

  lemma {:induction false} RetainedRises(log: seq<Entry>, t: Revision)
    requires MainsRise(log)
    ensures MainsRise(Retained(log, t))
  {
    if log != [] {
      var n := |log| - 1;
      RetainedRises(log[..n], t);
      forall i | 0 <= i < |Retained(log[..n], t)|
        ensures Retained(log[..n], t)[i].rev.main <= log[n].rev.main
      {
        RetainedExact(log[..n], t, Retained(log[..n], t)[i]);
      }
    }
  }

  /** Along the log of every run main revisions never fall, whatever is compacted or shared. */
  lemma {:induction false} RunRises(cs: seq<Command>)
    ensures MainsRise(Run(cs).log)
  {
    hide Inv, MainsRise, CommandEvents, Entries, Retained, LiveOfLog, LiveAfter;
    if cs == [] {
      EmptyRises();
    } else {
      var pre, c := cs[..|cs| - 1], cs[|cs| - 1];
      RunRises(pre);
      RunInv(pre);
      var m := Run(pre);
      if c.CCompact? {
        RetainedRises(m.log, Revision(c.rev, 0));
      } else {
        CommandEventRevs(m.live, m.cur, c);
        AppendRises(m, CommandEvents(m.live, m.cur, c));
      }
    }
  }

  lemma EmptyRises()
    ensures MainsRise([])
  {
  }

  // ---------------------------------------------------------------- point reads

  lemma {:induction false} LastAtRetained(log: seq<Entry>, t: int, k: Key, at: Revision)
    requires MainsRise(log)
    ensures var e := LastAt(log, k, at);
            LastAt(Retained(log, Revision(t, 0)), k, at) == if e.Some? && t <= e.value.rev.main then e else None
  {
    hide LastAt;
    if log == [] {
      NothingAt(k, at);
    } else {
      var n := |log| - 1;
      var pre, kept := log[..n], Retained(log[..n], Revision(t, 0));
      LastAtRetained(pre, t, k, at);
      LastAtSnoc(pre, log[n], k, at);
      assert log == pre + [log[n]];
      if log[n].rev.main < t {
        assert Retained(log, Revision(t, 0)) == kept + [] == kept;
        MemoryStores.LastAtIn(pre, k, at);
      } else {
        LastAtSnoc(kept, log[n], k, at);
      }
    }
  }

  lemma NothingAt(k: Key, at: Revision)
    ensures LastAt([], k, at) == None
  {
  }

  /** What the revision store holds under a revision was written at that main revision. */
  lemma StoredAtMain(m: Machine, r: Revision)
    requires Inv(m) && r in StoreOf(m.log)
    ensures StoreOf(m.log)[r].modRev == r.main && 0 <= r.sub
  {
    hide Coherent;
    StoreOfMember(m.log, r);
    var i :| 0 <= i < |m.log| && m.log[i] == Entry(r, StoreOf(m.log)[r]);
    assert EntryOk(m.log[i], m.cur, m.compacted);
  }

  /** A read after the compaction is the read before it, or nothing if that was written below the target. */
  lemma ReadRetained(m: Machine, t: int, k: Key, at: Revision)
    requires Inv(m) && MainsRise(m.log)
    ensures var seen := LastAt(m.log, k, at);
            StoreReadAt(Retained(m.log, Revision(t, 0)), k, at) ==
            if seen.Some? && t <= seen.value.rev.main then StoreReadAt(m.log, k, at) else None
    ensures var r := StoreReadAt(m.log, k, at);
            r.Some? ==> LastAt(m.log, k, at).Some? && r.value.modRev == LastAt(m.log, k, at).value.rev.main
  {
    hide LastAt, StoreOf, Inv, MainsRise, Retained;
    LastAtRetained(m.log, t, k, at);
    MemoryStores.StoreOfRetained(m.log, Revision(t, 0));
    var seen := LastAt(m.log, k, at);
    if seen.Some? && seen.value.rev in StoreOf(m.log) {
      StoredAtMain(m, seen.value.rev);
    }
  }

  /** What a point read answers once a compaction to t has been accepted. */
  function CompactedGet(m: Machine, t: int, k: Key, rev: int): Result<KeyValue> {
    var at, seen := ReadRev(m, rev), LastAt(m.log, k, ReadRev(m, rev));
    if k == [] then Err(EmptyKey)
    else if rev != 0 && rev < t then Err(CompactedRevision)
    else if m.cur.LessThan(at) || (seen.Some? && t <= seen.value.rev.main) then StoreGet(m, k, rev)
    else Err(KeyNotFound)
  }

  lemma AfterCompaction(cs: seq<Command>, t: int)
    ensures var m := Run(cs);
            Run(cs + [CCompact(t)]) == if CanCompact(m, t) then Machine(Retained(m.log, Revision(t, 0)), LiveOfLog(Retained(m.log, Revision(t, 0))), m.cur, Revision(t, 0)) else m
  {
    hide Run;
    RunSnoc(cs, CCompact(t));
  }

  /** Compaction effect. After any run, an accepted compaction rejects reads below its target; a read at
      or above it survives exactly when the newest revision it sees is itself at or above the target. */
  lemma CompactionEffect(cs: seq<Command>, t: int, k: Key, rev: int)
    requires CanCompact(Run(cs), t)
    ensures Run(cs).compacted.LessThan(Run(cs + [CCompact(t)]).compacted)
    ensures StoreGet(Run(cs + [CCompact(t)]), k, rev) == CompactedGet(Run(cs), t, k, rev)
  {
    hide Run, LastAt, StoreReadAt, MainsRise, Retained, LiveOfLog, Coherent;
    var m := Run(cs);
    AfterCompaction(cs, t);
    RunInv(cs);
    RunRises(cs);
    ReadRetained(m, t, k, ReadRev(m, rev));
  }

  /** The reads a compaction changes, told by what they answered before: those at or above the target
      whose value was written below it, and those below the target that were not rejected already. */
  predicate Loses(m: Machine, t: int, rev: int, written: bool) {
    CanCompact(m, t) && if rev == 0 || t <= rev then written else m.compacted.main <= rev
  }

  predicate WrittenBelow(r: Result<KeyValue>, t: int) {
    r.Ok? && r.value.modRev < t
  }

  /** Compaction changes a point read exactly when it loses it, in every run and for every target. */
  lemma CompactionLosesExactly(cs: seq<Command>, t: int, k: Key, rev: int)
    ensures StoreGet(Run(cs + [CCompact(t)]), k, rev) != StoreGet(Run(cs), k, rev) <==>
            k != [] && Loses(Run(cs), t, rev, WrittenBelow(StoreGet(Run(cs), k, rev), t))
  {
    hide Run, LastAt, StoreReadAt, MainsRise, Coherent, Retained, LiveOfLog;
    var m := Run(cs);
    AfterCompaction(cs, t);
    if CanCompact(m, t) {
      CompactionEffect(cs, t, k, rev);
      RunInv(cs);
      RunRises(cs);
      ReadRetained(m, t, k, ReadRev(m, rev));
    }
  }

  // ---------------------------------------------------------------- range reads

  /** The values written at or above t, in order. */
  function WrittenFrom(kvs: seq<KeyValue>, t: int): seq<KeyValue> {
    if kvs == [] then []
    else WrittenFrom(kvs[..|kvs| - 1], t) + (if kvs[|kvs| - 1].modRev < t then [] else [kvs[|kvs| - 1]])
  }

  lemma WrittenSnoc(kvs: seq<KeyValue>, kv: KeyValue, t: int)
    ensures WrittenFrom(kvs + [kv], t) == WrittenFrom(kvs, t) + (if kv.modRev < t then [] else [kv])
  {
    assert (kvs + [kv])[..|kvs|] == kvs;
  }

  lemma {:induction false} ReadAllRetained(m: Machine, t: int, ks: seq<Key>, at: Revision)
    requires Inv(m) && MainsRise(m.log)
    ensures StoreReadAll(Retained(m.log, Revision(t, 0)), ks, at) == WrittenFrom(StoreReadAll(m.log, ks, at), t)
  {
    hide Inv, MainsRise, Retained, StoreReadAt, LastAt, WrittenFrom;
    if ks == [] {
      NothingWritten(t);
    } else {
      var n := |ks| - 1;
      ReadAllRetained(m, t, ks[..n], at);
      ReadRetained(m, t, ks[n], at);
      var r := StoreReadAt(m.log, ks[n], at);
      if r.Some? {
        WrittenSnoc(StoreReadAll(m.log, ks[..n], at), r.value, t);
      } else {
        assert StoreReadAll(m.log, ks, at) == StoreReadAll(m.log, ks[..n], at);
      }
    }
  }

  lemma NothingWritten(t: int)
    ensures WrittenFrom([], t) == []
  {
  }

  function Chosen(ks: seq<Key>, s: set<Key>): seq<Key> {
    if ks == [] then []
    else Chosen(ks[..|ks| - 1], s) + (if ks[|ks| - 1] in s then [ks[|ks| - 1]] else [])
  }

  lemma {:induction false} ChosenExact(ks: seq<Key>, s: set<Key>)
    requires Sorted(ks)
    ensures Sorted(Chosen(ks, s)) && forall k :: k in Chosen(ks, s) <==> k in ks && k in s
  {
    hide Less;
    if ks != [] {
      var n := |ks| - 1;
      ChosenExact(ks[..n], s);
      assert ks == ks[..n] + [ks[n]];
      var pre := Chosen(ks[..n], s);
      forall i | 0 <= i < |pre|
        ensures Less(pre[i], ks[n])
      {
        assert pre[i] in pre;
      }
    }
  }

  /** Keys that are not in the log contribute nothing to a listing. */
  lemma {:induction false} ChosenReads(log: seq<Entry>, ks: seq<Key>, at: Revision)
    ensures StoreReadAll(log, Chosen(ks, LogKeys(log)), at) == StoreReadAll(log, ks, at)
  {
    hide StoreReadAt, LogKeys;
    if ks != [] {
      var n := |ks| - 1;
      ChosenReads(log, ks[..n], at);
      var pre := Chosen(ks[..n], LogKeys(log));
      if ks[n] in LogKeys(log) {
        assert (pre + [ks[n]])[..|pre|] == pre;
      } else {
        assert Chosen(ks, LogKeys(log)) == pre;
        NoEntryNoValue(log, ks[n], at);
        assert StoreReadAll(log, ks, at) == StoreReadAll(log, ks[..n], at);
      }
    }
  }

  lemma NoEntryNoValue(log: seq<Entry>, k: Key, at: Revision)
    requires k !in LogKeys(log)
    ensures StoreReadAt(log, k, at) == None
  {
    hide LastAt;
    MemoryStores.LastAtIn(log, k, at);
    LastAtKey(log, k, at);
  }

  lemma {:induction false} LastAtKey(log: seq<Entry>, k: Key, at: Revision)
    ensures LastAt(log, k, at).Some? ==> LastAt(log, k, at).value.kv.key == k && LastAt(log, k, at).value.rev.AtMost(at)
  {
    if log != [] {
      LastAtKey(log[..|log| - 1], k, at);
    }
  }

  lemma KeysRetained(log: seq<Entry>, t: Revision, start: Key, end: Option<Key>)
    ensures Chosen(RangeKeys(LogKeys(log), start, end), LogKeys(Retained(log, t))) == RangeKeys(LogKeys(Retained(log, t)), start, end)
  {
    hide Chosen, Retained, InRange, Less, Sorted;
    var old', new' := LogKeys(log), LogKeys(Retained(log, t));
    forall k | k in new'
      ensures k in old'
    {
      var e :| e in Retained(log, t) && e.kv.key == k;
      RetainedExact(log, t, e);
    }
    var ks := RangeKeys(old', start, end);
    ChosenExact(ks, new');
    AscendingUnique(Chosen(ks, new'), set k | k in new' && InRange(k, start, end));
  }

  /** What a range read answers once a compaction to t has been accepted: of the whole listing what was
      written at or above t, cut to the limit. */
  function CompactedRange(m: Machine, t: int, start: Key, end: Option<Key>, rev: int, limit: int): Result<seq<KeyValue>> {
    var whole := StoreRange(m, start, end, rev, 0);
    if start == [] then Err(EmptyKey)
    else if rev != 0 && rev < t then Err(CompactedRevision)
    else if whole.Err? then whole
    else Ok(Cut(WrittenFrom(whole.value, t), limit))
  }

  lemma RangeCompactionEffect(cs: seq<Command>, t: int, start: Key, end: Option<Key>, rev: int, limit: int)
    requires CanCompact(Run(cs), t)
    ensures StoreRange(Run(cs + [CCompact(t)]), start, end, rev, limit) == CompactedRange(Run(cs), t, start, end, rev, limit)
  {
    hide Run, MainsRise, Retained, LiveOfLog, Coherent, RangeKeys, StoreReadAll, LogKeys, WrittenFrom, Chosen;
    var m, at := Run(cs), ReadRev(Run(cs), rev);
    AfterCompaction(cs, t);
    RunInv(cs);
    RunRises(cs);
    var ks, log' := RangeKeys(LogKeys(m.log), start, end), Retained(m.log, Revision(t, 0));
    KeysRetained(m.log, Revision(t, 0), start, end);
    ChosenReads(log', ks, at);
    ReadAllRetained(m, t, ks, at);
  }

  predicate SomeWrittenBelow(r: Result<seq<KeyValue>>, t: int) {
    r.Ok? && exists i :: 0 <= i < |r.value| && r.value[i].modRev < t
  }

  lemma {:induction false} WrittenAll(kvs: seq<KeyValue>, t: int)
    ensures forall kv :: kv in WrittenFrom(kvs, t) ==> t <= kv.modRev
    ensures (forall i :: 0 <= i < |kvs| ==> t <= kvs[i].modRev) ==> WrittenFrom(kvs, t) == kvs
  {
    hide WrittenFrom;
    if kvs == [] {
      NothingWritten(t);
    } else {
      var n := |kvs| - 1;
      WrittenAll(kvs[..n], t);
      assert kvs == kvs[..n] + [kvs[n]];
      WrittenSnoc(kvs[..n], kvs[n], t);
    }
  }

  lemma {:induction false} WrittenConcat(a: seq<KeyValue>, b: seq<KeyValue>, t: int)
    ensures WrittenFrom(a + b, t) == WrittenFrom(a, t) + WrittenFrom(b, t)
  {
    hide WrittenFrom;
    if b == [] {
      NothingWritten(t);
      assert a + b == a;
    } else {
      var n := |b| - 1;
      WrittenConcat(a, b[..n], t);
      assert a + b == (a + b[..n]) + [b[n]] && b == b[..n] + [b[n]];
      WrittenSnoc(a + b[..n], b[n], t);
      WrittenSnoc(b[..n], b[n], t);
    }
  }

  /** The limited listing changes exactly when one of its own values goes. */
  lemma CutWritten(all: seq<KeyValue>, t: int, limit: int)
    ensures Cut(WrittenFrom(all, t), limit) != Cut(all, limit) <==>
            exists i :: 0 <= i < |Cut(all, limit)| && Cut(all, limit)[i].modRev < t
  {
    hide WrittenFrom;
    var head := Cut(all, limit);
    var tail := all[|head|..];
    assert all == head + tail;
    WrittenConcat(head, tail, t);
    WrittenAll(head, t);
    WrittenAll(tail, t);
    WrittenAll(all, t);
    if exists i :: 0 <= i < |head| && head[i].modRev < t {
      var i :| 0 <= i < |head| && head[i].modRev < t;
      assert head[i] !in WrittenFrom(all, t);
      assert forall kv :: kv in Cut(WrittenFrom(all, t), limit) ==> kv in WrittenFrom(all, t);
    } else {
      assert 0 < limit < |all| ==> |head| == limit;
      assert WrittenFrom(all, t) == head + WrittenFrom(tail, t);
    }
  }

  /** Compaction changes a range read exactly when it loses one of the values listed, or rejects it. */
  lemma RangeCompactionLosesExactly(cs: seq<Command>, t: int, start: Key, end: Option<Key>, rev: int, limit: int)
    ensures StoreRange(Run(cs + [CCompact(t)]), start, end, rev, limit) != StoreRange(Run(cs), start, end, rev, limit) <==>
            start != [] && Loses(Run(cs), t, rev, SomeWrittenBelow(StoreRange(Run(cs), start, end, rev, limit), t))
  {
    hide Run, MainsRise, Retained, LiveOfLog, Coherent, RangeKeys, StoreReadAll, LogKeys, WrittenFrom;
    var m := Run(cs);
    AfterCompaction(cs, t);
    if CanCompact(m, t) {
      RangeCompactionEffect(cs, t, start, end, rev, limit);
      RunInv(cs);
      CutWritten(StoreReadAll(m.log, RangeKeys(LogKeys(m.log), start, end), ReadRev(m, rev)), t, limit);
    }
  }

  // ---------------------------------------------------------------- deletes

  predicate KeptFrom(log: seq<Entry>, k: Key, t: int) {
    exists i :: 0 <= i < |log| && log[i].kv.key == k && t <= log[i].rev.main
  }

  lemma OpenIsKept(cs: seq<Command>, t: int, k: Key)
    requires CanCompact(Run(cs), t)
    ensures k in Run(cs + [CCompact(t)]).live <==> KeptFrom(Run(cs).log, k, t)
  {
    hide Run, Retained, MainsRise, KeyRevs, StoreOf;
    var log, kept := Run(cs).log, Retained(Run(cs).log, Revision(t, 0));
    AfterCompaction(cs, t);
    LastRevStored(kept, k);
    RunRises(cs);
    LowestAtMain(log);
    if KeptFrom(log, k, t) {
      var i :| 0 <= i < |log| && log[i].kv.key == k && t <= log[i].rev.main;
      RetainedExact(log, Revision(t, 0), log[i]);
    }
    if k in LogKeys(kept) {
      var e :| e in kept && e.kv.key == k;
      RetainedExact(log, Revision(t, 0), e);
      var i :| 0 <= i < |log| && log[i] == e;
    }
  }

  lemma LowestAtMain(log: seq<Entry>)
    requires MainsRise(log)
    ensures forall i :: 0 <= i < |log| ==> 0 <= log[i].rev.sub
  {
  }

  /** Every event a run has written, compacted since or not. */
  function Written(cs: seq<Command>): seq<Event> {
    if cs == [] then []
    else
      var pre, c := cs[..|cs| - 1], cs[|cs| - 1];
      Written(pre) + CommandEvents(Run(pre).live, Run(pre).cur, c)
  }

  lemma {:induction false} WrittenIsHistory(cs: seq<Command>)
    requires NoCompaction(cs)
    ensures Written(cs) == RefRun(cs).hist
  {
    hide CommandEvents, Present, CommandCur, Run;
    if cs != [] {
      var pre := cs[..|cs| - 1];
      WrittenIsHistory(pre);
      LiveIsPresent(pre);
      RunSimulates(pre);
    }
  }

  predicate WrittenAt(h: seq<Event>, k: Key, t: int) {
    exists i :: 0 <= i < |h| && h[i].key == k && t <= h[i].rev.main
  }

  lemma KeptConcat(log: seq<Entry>, more: seq<Entry>, k: Key, t: int)
    ensures KeptFrom(log + more, k, t) <==> KeptFrom(log, k, t) || KeptFrom(more, k, t)
  {
    var all := log + more;
    if KeptFrom(log, k, t) {
      var i :| 0 <= i < |log| && log[i].kv.key == k && t <= log[i].rev.main;
      assert all[i] == log[i];
    }
    if KeptFrom(more, k, t) {
      var i :| 0 <= i < |more| && more[i].kv.key == k && t <= more[i].rev.main;
      assert all[|log| + i] == more[i];
    }
  }

  lemma WrittenAtConcat(h: seq<Event>, more: seq<Event>, k: Key, t: int)
    ensures WrittenAt(h + more, k, t) <==> WrittenAt(h, k, t) || WrittenAt(more, k, t)
  {
    var all := h + more;
    if WrittenAt(h, k, t) {
      var i :| 0 <= i < |h| && h[i].key == k && t <= h[i].rev.main;
      assert all[i] == h[i];
    }
    if WrittenAt(more, k, t) {
      var i :| 0 <= i < |more| && more[i].key == k && t <= more[i].rev.main;
      assert all[|h| + i] == more[i];
    }
  }

  lemma EntriesKept(live: map<Key, KeyValue>, es: seq<Event>, k: Key, t: int)
    ensures KeptFrom(Entries(live, es), k, t) <==> WrittenAt(es, k, t)
  {
    hide Entries;
    var log := Entries(live, es);
    if KeptFrom(log, k, t) {
      var i :| 0 <= i < |log| && log[i].kv.key == k && t <= log[i].rev.main;
      assert es[i].key == k;
    }
    if WrittenAt(es, k, t) {
      var i :| 0 <= i < |es| && es[i].key == k && t <= es[i].rev.main;
      assert log[i].kv.key == k;
    }
  }

  lemma RetainedKept(log: seq<Entry>, t0: int, k: Key, t: int)
    requires t0 <= t && MainsRise(log)
    ensures KeptFrom(Retained(log, Revision(t0, 0)), k, t) <==> KeptFrom(log, k, t)
  {
    hide Retained;
    var kept := Retained(log, Revision(t0, 0));
    if KeptFrom(kept, k, t) {
      var i :| 0 <= i < |kept| && kept[i].kv.key == k && t <= kept[i].rev.main;
      RetainedExact(log, Revision(t0, 0), kept[i]);
      var j :| 0 <= j < |log| && log[j] == kept[i];
    }
    if KeptFrom(log, k, t) {
      var i :| 0 <= i < |log| && log[i].kv.key == k && t <= log[i].rev.main;
      RetainedExact(log, Revision(t0, 0), log[i]);
      var j :| 0 <= j < |kept| && kept[j] == log[i];
    }
  }

  /** At or above the compacted revision the log has an entry for whatever the run has written. */
  lemma {:induction false} KeptIsWritten(cs: seq<Command>, k: Key, t: int)
    requires Run(cs).compacted.main <= t
    ensures KeptFrom(Run(cs).log, k, t) <==> WrittenAt(Written(cs), k, t)
  {
    hide KeptFrom, WrittenAt, CommandEvents, Entries, Retained, LiveOfLog, LiveAfter, MainsRise, Coherent;
    if cs == [] {
      NothingKept(k, t);
    } else {
      var pre, c := cs[..|cs| - 1], cs[|cs| - 1];
      var m := Run(pre);
      CompactedGrows(m, c);
      KeptIsWritten(pre, k, t);
      var es := CommandEvents(m.live, m.cur, c);
      if c.CCompact? {
        if CanCompact(m, c.rev) {
          RunRises(pre);
          RetainedKept(m.log, c.rev, k, t);
        }
        CompactWritesNothing(m, c);
        assert Written(cs) == Written(pre);
      } else {
        KeptConcat(m.log, Entries(m.live, es), k, t);
        EntriesKept(m.live, es, k, t);
        WrittenAtConcat(Written(pre), es, k, t);
      }
    }
  }

  lemma NothingKept(k: Key, t: int)
    ensures !KeptFrom([], k, t) && !WrittenAt([], k, t)
  {
  }

  lemma CompactedGrows(m: Machine, c: Command)
    ensures m.compacted.main <= Step(m, c).compacted.main
  {
    hide CommandEvents, Entries, Retained, LiveOfLog, LiveAfter;
  }

  lemma CompactWritesNothing(m: Machine, c: Command)
    requires c.CCompact?
    ensures CommandEvents(m.live, m.cur, c) == []
  {
  }

  /** Which keys count as open after a compaction: those written at or above its target, deleted since
      or not. A delete finds exactly the open keys. */
  lemma OpenAfterCompaction(cs: seq<Command>, t: int, k: Key)
    requires CanCompact(Run(cs), t)
    ensures k in Run(cs + [CCompact(t)]).live <==> WrittenAt(Written(cs), k, t)
  {
    hide Run, KeptFrom, WrittenAt, Written;
    OpenIsKept(cs, t, k);
    KeptIsWritten(cs, k, t);
  }

  /** The last event of a key. */
  function LastEvent(h: seq<Event>, k: Key): Option<Event> {
    if h == [] then None
    else if h[|h| - 1].key == k then Some(h[|h| - 1])
    else LastEvent(h[..|h| - 1], k)
  }

  predicate HistoryRises(h: seq<Event>) {
    forall i, j :: 0 <= i < j < |h| ==> h[i].rev.main <= h[j].rev.main
  }

  lemma {:induction false} WrittenRises(cs: seq<Command>)
    ensures HistoryRises(Written(cs)) && forall i :: 0 <= i < |Written(cs)| ==> Written(cs)[i].rev.main <= Run(cs).cur.main
  {
    hide CommandEvents, CommandCur, Entries, Retained, LiveOfLog, LiveAfter, Inv;
    if cs != [] {
      var pre, c := cs[..|cs| - 1], cs[|cs| - 1];
      WrittenRises(pre);
      RunInv(pre);
      if c.CCompact? {
        CompactWritesNothing(Run(pre), c);
      } else {
        CommandEventRevs(Run(pre).live, Run(pre).cur, c);
        CurGrows(Run(pre), c);
      }
    }
  }

  lemma CurGrows(m: Machine, c: Command)
    requires Inv(m) && !c.CCompact?
    ensures m.cur.main <= Step(m, c).cur.main
    ensures CommandEvents(m.live, m.cur, c) != [] ==> m.cur.main + 1 <= Step(m, c).cur.main
  {
    hide Entries, LiveAfter, TxnEvents, Coherent;
  }

  lemma {:induction false} LastEventExact(h: seq<Event>, k: Key, t: int)
    requires HistoryRises(h)
    ensures WrittenAt(h, k, t) <==> LastEvent(h, k).Some? && t <= LastEvent(h, k).value.rev.main
    ensures Replay(h, k).Some? <==> LastEvent(h, k).Some? && LastEvent(h, k).value.write.Put?
  {
    hide WrittenAt;
    if h == [] {
      NothingKept(k, t);
    } else {
      var n := |h| - 1;
      LastEventExact(h[..n], k, t);
      WrittenAtConcat(h[..n], [h[n]], k, t);
      assert h == h[..n] + [h[n]];
      OneWritten(h[n], k, t);
      if h[n].key == k && LastEvent(h[..n], k).Some? {
        LastEventIn(h[..n], k);
      }
    }
  }

  lemma OneWritten(e: Event, k: Key, t: int)
    ensures WrittenAt([e], k, t) <==> e.key == k && t <= e.rev.main
  {
    assert [e][0] == e;
  }

  lemma {:induction false} LastEventIn(h: seq<Event>, k: Key)
    requires LastEvent(h, k).Some?
    ensures LastEvent(h, k).value in h
  {
    if h[|h| - 1].key != k {
      LastEventIn(h[..|h| - 1], k);
    }
  }

  /** After any run and a compaction to t, a delete of k finds the key exactly when the replay of all that
      was written has it, if and only if it was never written, or last put at or above t, or last
      deleted below t. */
  lemma DeleteAgreesExactly(cs: seq<Command>, t: int, k: Key)
    requires CanCompact(Run(cs), t)
    ensures var last := LastEvent(Written(cs), k);
            (k in Run(cs + [CCompact(t)]).live <==> Replay(Written(cs), k).Some?) <==>
            last.None? || (t <= last.value.rev.main <==> last.value.write.Put?)
  {
    hide Run, Written, WrittenAt, HistoryRises, Replay, LastEvent;
    OpenAfterCompaction(cs, t, k);
    WrittenRises(cs);
    LastEventExact(Written(cs), k, t);
  }

  // ---------------------------------------------------------------- small runs

  lemma FirstOfTwo(a: Entry, b: Entry)
    requires a.kv.key == [1] && b.kv.key == [2] && a.rev == Revision(1, 0) && b.rev == Revision(2, 0)
    ensures LastAt([a, b], [1], Revision(2, 0)) == Some(a)
    ensures a.rev in StoreOf([a, b]) && StoreOf([a, b])[a.rev] == a.kv
  {
    assert [a, b][..1] == [a] && [a][..0] == [];
  }

  /** Two puts and a compaction to 2: the first key, current at 2 and never deleted, is not found any
      more, and a delete does not find it either. */
  lemma CompactionLosesCurrentValue()
    ensures var after := Run(PutOneAndTwo + [CCompact(2)]);
            && StoreGet(Run(PutOneAndTwo), [1], 2) == Ok(KeyValue([1], [10], 1, 1, 1, 0))
            && StoreGet(after, [1], 2) == Err(KeyNotFound)
            && Replay(Written(PutOneAndTwo), [1]).Some? && [1] !in after.live
  {
    hide Run, RefRun, LastAt, StoreOf, Replay, Written;
    OneAndTwoLog();
    var log := Run(PutOneAndTwo).log;
    FirstOfTwo(log[0], log[1]);
    assert log == [log[0], log[1]];
    assert CanCompact(Run(PutOneAndTwo), 2);
    CompactionEffect(PutOneAndTwo, 2, [1], 2);
    OpenIsKept(PutOneAndTwo, 2, [1]);
    RunSimulates(PutOneAndTwo);
    WrittenIsHistory(PutOneAndTwo);
    LiveIsReplay(RefRun(PutOneAndTwo).hist, [1]);
  }

  /** Put, delete, compaction to 2: the deleted key counts as open again, and a delete finds it. */
  lemma CompactionReopensDeletedKey()
    ensures var cs := [CPut([1], [], 0), CDelete([1])];
            && Replay(Written(cs), [1]).None?
            && [1] in Run(cs + [CCompact(2)]).live
  {
    hide Run, RefRun, Replay, Written;
    var cs := [CPut([1], [], 0), CDelete([1])];
    FirstLifeInMemory();
    assert CanCompact(Run(cs), 2);
    assert Run(cs).log[1].kv.key == [1] && Run(cs).log[1].rev.main == 2;
    OpenIsKept(cs, 2, [1]);
    RunSimulates(cs);
    WrittenIsHistory(cs);
    LiveIsReplay(RefRun(cs).hist, [1]);
  }
}

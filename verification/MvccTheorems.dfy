/** Facts about every run of the abstract MVCC store: what each command keeps, when revisions
    stay unique, and how reads relate to the plain replay of the history. */
module MvccTheorems {
  import opened Bytes
  import opened Revisions
  import opened MvccSpec

  // ---------------------------------------------------------------- invariant of every run

  function LastRev(log: seq<Entry>, k: Key): Revision
  {
    var rs := KeyRevs(log, k);
    if rs == [] then Zero else rs[|rs| - 1]
  }

  /** Every open key is backed by the store entry at its newest revision, which is below bound. */
  ghost predicate Coherent(log: seq<Entry>, live: map<Key, KeyValue>, bound: Revision) {
    forall k :: k in live ==>
      && KeyRevs(log, k) != []
      && LastRev(log, k).LessThan(bound)
      && LastRev(log, k) in StoreOf(log)
      && StoreOf(log)[LastRev(log, k)] == live[k]
  }

  ghost predicate EntryOk(e: Entry, cur: Revision, compacted: Revision) {
    && 1 <= e.rev.main <= cur.main && 0 <= e.rev.sub
    && compacted.AtMost(e.rev)
    && e.kv.modRev == e.rev.main
    && 0 <= e.kv.version
  }

  ghost predicate Inv(m: Machine) {
    && 0 <= m.cur.main && 0 <= m.cur.sub
    && m.compacted.AtMost(m.cur) && 0 <= m.compacted.main && m.compacted.sub == 0
    && (forall i :: 0 <= i < |m.log| ==> EntryOk(m.log[i], m.cur, m.compacted))
    && Coherent(m.log, m.live, Revision(m.cur.main + 1, 0))
    && (forall k :: k in m.live ==> 0 <= m.live[k].version)
  }

  ghost predicate CoherentAfter(log: seq<Entry>, live: map<Key, KeyValue>, es: seq<Event>, bound: Revision) {
    Coherent(log + Entries(live, es), LiveAfter(live, es), bound)
  }

  /** Writing at or above the bound disturbs no other open key. */
  lemma CoherentEvent(log: seq<Entry>, live: map<Key, KeyValue>, e: Event, bound: Revision, bound': Revision)
    requires Coherent(log, live, bound) && bound.AtMost(e.rev) && bound.AtMost(bound')
    requires e.write.Put? ==> e.rev.LessThan(bound')
    ensures Coherent(log + [Entry(e.rev, NewKv(live, e))], LiveAfter1(live, e), bound')
  {
    var log' := log + [Entry(e.rev, NewKv(live, e))];
    assert log'[..|log|] == log;
  }

  lemma {:induction false} CoherentDeletes(log: seq<Entry>, live: map<Key, KeyValue>, es: seq<Event>, bound: Revision)
    requires Coherent(log, live, bound)
    requires forall i :: 0 <= i < |es| ==> es[i].write.Delete? && bound.AtMost(es[i].rev)
    ensures CoherentAfter(log, live, es, bound)
  {
    if es == [] {
      assert log + Entries(live, es) == log;
    } else {
      var n := |es| - 1;
      CoherentDeletes(log, live, es[..n], bound);
      CoherentEvent(log + Entries(live, es[..n]), LiveAfter(live, es[..n]), es[n], bound, bound);
      assert log + Entries(live, es) ==
             log + Entries(live, es[..n]) + [Entry(es[n].rev, NewKv(LiveAfter(live, es[..n]), es[n]))];
    }
  }

  lemma CoherentWeaken(log: seq<Entry>, live: map<Key, KeyValue>, bound: Revision, bound': Revision)
    requires Coherent(log, live, bound) && bound.AtMost(bound')
    ensures Coherent(log, live, bound')
  {
  }

  lemma CoherentOp(log: seq<Entry>, live: map<Key, KeyValue>, op: Op, rev: Revision)
    requires Coherent(log, live, rev)
    ensures CoherentAfter(log, live, OpEvents(live, op, rev), Revision(rev.main, rev.sub + 1))
  {
    var es := OpEvents(live, op, rev);
    var next := Revision(rev.main, rev.sub + 1);
    if op.PutOp? {
      CoherentEvent(log, live, es[0], rev, next);
      assert es[..0] == [];
      assert LiveAfter(live, es) == LiveAfter1(live, es[0]);
      assert Entries(live, es) == [Entry(es[0].rev, NewKv(live, es[0]))];
    } else {
      CoherentDeletes(log, live, es, rev);
      CoherentWeaken(log + Entries(live, es), LiveAfter(live, es), rev, next);
    }
  }

  lemma CoherentConcat(log: seq<Entry>, live: map<Key, KeyValue>, a: seq<Event>, b: seq<Event>, bound: Revision)
    requires CoherentAfter(log + Entries(live, a), LiveAfter(live, a), b, bound)
    ensures CoherentAfter(log, live, a + b, bound)
  {
    LiveAfterConcat(live, a, b);
    EntriesConcat(live, a, b);
    assert log + Entries(live, a + b) == log + Entries(live, a) + Entries(LiveAfter(live, a), b);
  }

  lemma CoherentNextOp(log: seq<Entry>, live: map<Key, KeyValue>, before: seq<Event>, op: Op, rev: Revision, es: seq<Event>)
    requires CoherentAfter(log, live, before, rev)
    requires es == before + OpEvents(LiveAfter(live, before), op, rev)
    ensures CoherentAfter(log, live, es, Revision(rev.main, rev.sub + 1))
  {
    CoherentOp(log + Entries(live, before), LiveAfter(live, before), op, rev);
    CoherentConcat(log, live, before, OpEvents(LiveAfter(live, before), op, rev), Revision(rev.main, rev.sub + 1));
  }

  lemma {:induction false} CoherentTxn(log: seq<Entry>, live: map<Key, KeyValue>, ops: seq<Op>, main: int, n: nat, es: seq<Event>)
    requires n <= |ops| && Coherent(log, live, Revision(main, 0))
    requires es == TxnEvents(live, ops, main, n)
    ensures CoherentAfter(log, live, es, Revision(main, n))
  {
    if n == 0 {
      assert log + Entries(live, es) == log;
    } else {
      var before := TxnEvents(live, ops, main, n - 1);
      TxnUnfold(live, ops, main, n, before);
      CoherentTxn(log, live, ops, main, n - 1, before);
      CoherentNextOp(log, live, before, ops[n - 1], Revision(main, n - 1), es);
    }
  }

  predicate AtMain(es: seq<Event>, main: int) {
    forall i :: 0 <= i < |es| ==> es[i].rev.main == main && 0 <= es[i].rev.sub
  }

  lemma AtMainConcat(a: seq<Event>, b: seq<Event>, main: int)
    requires AtMain(a, main) && AtMain(b, main)
    ensures AtMain(a + b, main)
  {
  }

  lemma OpAtMain(live: map<Key, KeyValue>, op: Op, rev: Revision)
    requires 0 <= rev.sub
    ensures AtMain(OpEvents(live, op, rev), rev.main)
  {
  }

  lemma {:induction false} TxnAtMain(live: map<Key, KeyValue>, ops: seq<Op>, main: int, n: nat)
    requires n <= |ops|
    ensures AtMain(TxnEvents(live, ops, main, n), main)
  {
    if n > 0 {
      var before := TxnEvents(live, ops, main, n - 1);
      var rev := Revision(main, n - 1);
      TxnAtMain(live, ops, main, n - 1);
      OpAtMain(LiveAfter(live, before), ops[n - 1], rev);
      AtMainConcat(before, OpEvents(LiveAfter(live, before), ops[n - 1], rev), main);
      TxnUnfold(live, ops, main, n, before);
    }
  }

  lemma CommandEventRevs(live: map<Key, KeyValue>, cur: Revision, c: Command)
    ensures AtMain(CommandEvents(live, cur, c), cur.main + 1)
    ensures CommandEvents(live, cur, c) != [] ==> CommandCur(live, cur, c).main == cur.main + 1
    ensures cur.main <= CommandCur(live, cur, c).main <= cur.main + 1
    ensures CommandCur(live, cur, c) == cur || (CommandCur(live, cur, c).main == cur.main + 1 && 0 <= CommandCur(live, cur, c).sub)
  {
    if c.CTxn? {
      var ops := ChosenOps(live, c);
      TxnAtMain(live, ops, cur.main + 1, |ops|);
    }
  }

  lemma {:induction false} VersionsStay(live: map<Key, KeyValue>, es: seq<Event>)
    requires forall k :: k in live ==> 0 <= live[k].version
    ensures forall k :: k in LiveAfter(live, es) ==> 0 <= LiveAfter(live, es)[k].version
    ensures forall i :: 0 <= i < |es| ==> 0 <= Entries(live, es)[i].kv.version
  {
    if es != [] {
      VersionsStay(live, es[..|es| - 1]);
    }
  }

  lemma CommandCoherent(m: Machine, c: Command)
    requires Inv(m) && !c.CCompact?
    ensures CoherentAfter(m.log, m.live, CommandEvents(m.live, m.cur, c), Revision(CommandCur(m.live, m.cur, c).main + 1, 0))
  {
    hide Coherent, RangeKeys;
    var es := CommandEvents(m.live, m.cur, c);
    var next := Revision(m.cur.main + 1, 0);
    var log', live' := m.log + Entries(m.live, es), LiveAfter(m.live, es);
    CommandEventRevs(m.live, m.cur, c);
    if es == [] {
      assert log' == m.log;
      CoherentWeaken(log', live', next, Revision(CommandCur(m.live, m.cur, c).main + 1, 0));
    } else {
      var bound := Revision(m.cur.main + 2, 0);
      match c {
        case CPut(k, v, l) =>
          CoherentOp(m.log, m.live, PutOp(k, v, l), next);
          CoherentWeaken(log', live', Revision(next.main, 1), bound);
        case CDelete(k) =>
          CoherentDeletes(m.log, m.live, es, next);
          CoherentWeaken(log', live', next, bound);
        case CDeleteRange(s, end) =>
          CoherentDeletes(m.log, m.live, es, next);
          CoherentWeaken(log', live', next, bound);
        case CTxn(_, _, _) =>
          var ops := ChosenOps(m.live, c);
          CoherentTxn(m.log, m.live, ops, next.main, |ops|, es);
          CoherentWeaken(log', live', Revision(next.main, |ops|), bound);
      }
    }
  }

  // ---------------------------------------------------------------- compaction

  lemma {:induction false} RetainedExact(log: seq<Entry>, t: Revision, e: Entry)
    ensures e in Retained(log, t) <==> e in log && t.AtMost(e.rev)
  {
    if log != [] {
      RetainedExact(log[..|log| - 1], t, e);
      assert log == log[..|log| - 1] + [log[|log| - 1]];
    }
  }

  lemma {:induction false} RetainedAscends(log: seq<Entry>, t: Revision)
    requires LogAscends(log)
    ensures LogAscends(Retained(log, t))
  {
    if log != [] {
      var n := |log| - 1;
      RetainedAscends(log[..n], t);
      forall i | 0 <= i < |Retained(log[..n], t)|
        ensures Retained(log[..n], t)[i].rev.LessThan(log[n].rev)
      {
        RetainedExact(log[..n], t, Retained(log[..n], t)[i]);
      }
    }
  }

  lemma {:induction false} LastRevStored(log: seq<Entry>, k: Key)
    ensures KeyRevs(log, k) != [] <==> k in LogKeys(log)
    ensures KeyRevs(log, k) != [] ==> LastRev(log, k) in StoreOf(log)
  {
    if log != [] {
      var n := |log| - 1;
      LastRevStored(log[..n], k);
      assert log == log[..n] + [log[n]];
      assert LogKeys(log) == LogKeys(log[..n]) + {log[n].kv.key};
    }
  }

  lemma {:induction false} StoreOfMember(log: seq<Entry>, r: Revision)
    requires r in StoreOf(log)
    ensures Entry(r, StoreOf(log)[r]) in log
  {
    var n := |log| - 1;
    assert log == log[..n] + [log[n]];
    if r != log[n].rev {
      StoreOfMember(log[..n], r);
    }
  }

  lemma CompactedInv(m: Machine, rev: int)
    requires Inv(m)
    ensures Inv(Compacted(m, rev))
  {
    if CanCompact(m, rev) {
      var t := Revision(rev, 0);
      var log := Retained(m.log, t);
      forall i | 0 <= i < |log|
        ensures EntryOk(log[i], m.cur, t)
      {
        RetainedExact(m.log, t, log[i]);
      }
      forall k | k in LiveOfLog(log)
        ensures LastRev(log, k).LessThan(Revision(m.cur.main + 1, 0)) && 0 <= LiveOfLog(log)[k].version
      {
        LastRevStored(log, k);
        StoreOfMember(log, LastRev(log, k));
      }
    }
  }

  lemma StepInv(m: Machine, c: Command)
    requires Inv(m)
    ensures Inv(Step(m, c))
  {
    hide Coherent, Compacted, TxnEvents, DeleteEvents, RangeKeys, LiveAfter;
    if c.CCompact? {
      CompactedInv(m, c.rev);
    } else {
      var es := CommandEvents(m.live, m.cur, c);
      CommandEventRevs(m.live, m.cur, c);
      CommandCoherent(m, c);
      VersionsStay(m.live, es);
      var m' := Step(m, c);
      forall i | 0 <= i < |m'.log|
        ensures EntryOk(m'.log[i], m'.cur, m'.compacted)
      {
        if i < |m.log| {
          assert m'.log[i] == m.log[i];
        } else {
          assert m'.log[i] == Entries(m.live, es)[i - |m.log|];
        }
      }
    }
  }

  /** The invariant holds in every reachable state, whatever transactions did. */
  lemma {:induction false} RunInv(cs: seq<Command>)
    ensures Inv(Run(cs))
  {
    if cs != [] {
      RunInv(cs[..|cs| - 1]);
      StepInv(Run(cs[..|cs| - 1]), cs[|cs| - 1]);
    }
  }
}

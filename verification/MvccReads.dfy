/** Reads through index and revision store: when they are replays of the history, exactly. */
module MvccReads {
  import opened Bytes
  import opened Revisions
  import opened MvccSpec
  import opened MvccTheorems
  import opened MvccRuns

  // ---------------------------------------------------------------- what lies at a revision

  /** The last event of k that `at` can see. */
  ghost predicate IsLastSeen(h: seq<Event>, k: Key, at: Revision, p: nat) {
    && p < |h| && h[p].key == k && h[p].rev.AtMost(at)
    && forall x :: p < x < |h| && h[x].key == k ==> !h[x].rev.AtMost(at)
  }

  lemma {:induction false} LastSeen(h: seq<Event>, k: Key, at: Revision) returns (p: nat)
    ensures var e := LastAt(Entries(map[], h), k, at);
            if e.Some? then IsLastSeen(h, k, at, p) && e.value == Entries(map[], h)[p]
            else forall x :: 0 <= x < |h| && h[x].key == k ==> !h[x].rev.AtMost(at)
  {
    hide Entries, LastAt, IsLastSeen;
    p := 0;
    if h == [] {
      NothingLast(k, at);
    } else {
      var n := |h| - 1;
      var pre, e := h[..n], Entry(h[n].rev, NewKv(LiveAfter(map[], h[..n]), h[n]));
      assert pre + [h[n]] == h;
      EntriesSnoc(map[], pre, h[n]);
      LastAtSnoc(Entries(map[], pre), e, k, at);
      p := LastSeen(pre, k, at);
      if h[n].key == k && h[n].rev.AtMost(at) {
        p := n;
        LastIsSeen(h, k, at);
      } else if LastAt(Entries(map[], pre), k, at).Some? {
        StillLastSeen(h, k, at, p);
      } else {
        assert forall x :: 0 <= x < n ==> pre[x] == h[x];
      }
    }
  }

  lemma NothingLast(k: Key, at: Revision)
    ensures LastAt(Entries(map[], []), k, at).None?
  {
  }

  lemma LastIsSeen(h: seq<Event>, k: Key, at: Revision)
    requires h != [] && h[|h| - 1].key == k && h[|h| - 1].rev.AtMost(at)
    ensures IsLastSeen(h, k, at, |h| - 1)
  {
  }

  lemma StillLastSeen(h: seq<Event>, k: Key, at: Revision, p: nat)
    requires h != [] && IsLastSeen(h[..|h| - 1], k, at, p)
    requires !(h[|h| - 1].key == k && h[|h| - 1].rev.AtMost(at))
    ensures IsLastSeen(h, k, at, p) && p < |h| - 1
  {
  }

  /** Among the entries at one revision the revision store keeps the last. */
  lemma {:induction false} StoreKeepsLast(log: seq<Entry>, i: nat) returns (j: nat)
    requires i < |log|
    ensures i <= j < |log| && log[j].rev == log[i].rev
    ensures forall x :: j < x < |log| ==> log[x].rev != log[i].rev
    ensures log[i].rev in StoreOf(log) && StoreOf(log)[log[i].rev] == log[j].kv
  {
    var n := |log| - 1;
    if log[n].rev == log[i].rev {
      j := n;
    } else {
      j := StoreKeepsLast(log[..n], i);
    }
  }

  /** Version 0 marks the entries of deletes. */
  lemma {:induction false} EntryKind(h: seq<Event>, i: nat)
    requires i < |h|
    ensures Entries(map[], h)[i].kv.version == 0 <==> h[i].write.Delete?
  {
    var n := |h| - 1;
    if i < n {
      EntryKind(h[..n], i);
    } else {
      LiveIsReplay(h[..n], h[n].key);
    }
  }

  // ---------------------------------------------------------------- who can overwrite whom

  /** Only deletes lose their revision to a later event. */
  predicate OnlyDeletesLost(h: seq<Event>) {
    forall i, j :: 0 <= i < j < |h| && h[i].rev == h[j].rev ==> h[i].write.Delete?
  }

  lemma LongBlocksDelete(live: map<Key, KeyValue>, op: Op, rev: Revision)
    ensures var es := OpEvents(live, op, rev);
            |es| >= 2 ==> op.DeleteRangeOp? && forall a :: 0 <= a < |es| ==> es[a].write.Delete?
  {
  }

  /** Block i of a transaction: the events of operation i on what its predecessors left. */
  lemma {:induction false} BlockIs(live: map<Key, KeyValue>, ops: seq<Op>, main: int, n: nat, i: nat)
    requires i < n <= |ops|
    ensures TxnBlocks(live, ops, main, n)[i] ==
            OpEvents(LiveAfter(live, TxnEvents(live, ops, main, i)), ops[i], Revision(main, i))
    ensures TxnBlocks(live, ops, main, n)[..i] == TxnBlocks(live, ops, main, i)
  {
    hide OpEvents, LiveAfter, Flatten;
    if i < n - 1 {
      BlockIs(live, ops, main, n - 1, i);
    }
  }

  /** Where two events of a transaction share a revision: the earlier is a tombstone of a range delete. */
  lemma SharedRevision(live: map<Key, KeyValue>, ops: seq<Op>, main: int, p: nat, q: nat) returns (i: nat, j: nat, a: nat, b: nat)
    requires p < q < |TxnEvents(live, ops, main, |ops|)|
    requires TxnEvents(live, ops, main, |ops|)[p].rev == TxnEvents(live, ops, main, |ops|)[q].rev
    ensures var bs := TxnBlocks(live, ops, main, |ops|);
            && i < j < |ops| && a < |bs[i]| && b < |bs[j]| && i + a == j + b
            && p == |Flatten(bs[..i])| + a && q == |Flatten(bs[..j])| + b
            && Flatten(bs)[p] == bs[i][a] && Flatten(bs)[q] == bs[j][b]
            && ops[i].DeleteRangeOp? && bs[i][a].write.Delete?
  {
    hide OpEvents, LiveAfter, Flatten, TxnBlocks;
    var bs := TxnBlocks(live, ops, main, |ops|);
    i, a := FlattenIndex(bs, p);
    j, b := FlattenIndex(bs, q);
    TxnBlocksNumbered(live, ops, main, |ops|);
    assert NumberedFrom(bs[i], Revision(main, i)) && NumberedFrom(bs[j], Revision(main, j));
    if j < i {
      FlattenPrefix(bs, j + 1, i);
      FlattenNext(bs, j);
    }
    BlockIs(live, ops, main, |ops|, i);
    LongBlocksDelete(LiveAfter(live, TxnEvents(live, ops, main, i)), ops[i], Revision(main, i));
  }

  lemma FlattenNext(bs: seq<seq<Event>>, i: nat)
    requires i < |bs|
    ensures |Flatten(bs[..i + 1])| == |Flatten(bs[..i])| + |bs[i]|
  {
    assert bs[..i + 1][..i] == bs[..i];
  }

  lemma CommandOnlyDeletesLost(live: map<Key, KeyValue>, cur: Revision, c: Command)
    ensures OnlyDeletesLost(CommandEvents(live, cur, c))
  {
    hide TxnEvents, OpEvents, DeleteEvents, RangeKeys;
    var es := CommandEvents(live, cur, c);
    forall p, q | 0 <= p < q < |es| && es[p].rev == es[q].rev
      ensures es[p].write.Delete?
    {
      if c.CTxn? {
        var i, j, a, b := SharedRevision(live, ChosenOps(live, c), cur.main + 1, p, q);
        TxnIsFlat(live, ChosenOps(live, c), cur.main + 1);
      } else {
        CommandNumbered(live, cur, c);
      }
    }
  }

  lemma TxnIsFlat(live: map<Key, KeyValue>, ops: seq<Op>, main: int)
    ensures TxnEvents(live, ops, main, |ops|) == Flatten(TxnBlocks(live, ops, main, |ops|))
  {
  }

  /** A later put takes the revision of the delete p. */
  ghost predicate Displaced(h: seq<Event>, p: nat)
    requires p < |h|
  {
    exists q :: p < q < |h| && h[q].rev == h[p].rev && h[q].write.Put?
  }

  /** The read of k at `at` lands on a delete whose revision a later put took. */
  ghost predicate Misled(h: seq<Event>, k: Key, at: Revision) {
    exists p: nat :: IsLastSeen(h, k, at, p) && h[p].write.Delete? && Displaced(h, p)
  }

  lemma MisledAt(h: seq<Event>, k: Key, at: Revision, p: nat)
    requires IsLastSeen(h, k, at, p)
    ensures Misled(h, k, at) <==> h[p].write.Delete? && Displaced(h, p)
  {
    hide Displaced;
    if Misled(h, k, at) {
      var x: nat :| IsLastSeen(h, k, at, x) && h[x].write.Delete? && Displaced(h, x);
      assert x == p;
    }
  }

  /** A store read differs from the log read exactly when it is misled. */
  lemma StoreReadExact(h: seq<Event>, k: Key, at: Revision)
    requires OnlyDeletesLost(h)
    ensures StoreReadAt(Entries(map[], h), k, at) == ReadAt(Entries(map[], h), k, at) <==> !Misled(h, k, at)
  {
    hide Entries, LastAt, Misled;
    var log := Entries(map[], h);
    var p := LastSeen(h, k, at);
    if LastAt(log, k, at).Some? {
      MisledAt(h, k, at, p);
      var j := StoreKeepsLast(log, p);
      EntryKind(h, p);
      EntryKind(h, j);
      assert forall x :: 0 <= x < |h| ==> log[x].rev == h[x].rev;
      StoredKind(h, p, j);
    } else {
      NothingSeen(h, k, at);
    }
  }

  lemma StoredKind(h: seq<Event>, p: nat, j: nat)
    requires OnlyDeletesLost(h) && p <= j < |h| && h[j].rev == h[p].rev
    requires forall x :: j < x < |h| ==> h[x].rev != h[p].rev
    ensures j != p ==> h[p].write.Delete?
    ensures h[p].write.Delete? ==> (Displaced(h, p) <==> h[j].write.Put?)
  {
  }

  lemma NothingSeen(h: seq<Event>, k: Key, at: Revision)
    requires forall x :: 0 <= x < |h| && h[x].key == k ==> !h[x].rev.AtMost(at)
    ensures !Misled(h, k, at)
  {
  }

  // ---------------------------------------------------------------- histories of runs

  /** A delete whose revision a put takes is followed by another event of its key in the same command. */
  ghost predicate Harmless(h: seq<Event>) {
    forall p, q :: 0 <= p < q < |h| && h[p].write.Delete? && h[q].write.Put? && h[p].rev == h[q].rev ==>
      ContinuesAfter(h, p)
  }

  ghost predicate ContinuesAfter(h: seq<Event>, p: nat)
    requires p < |h|
  {
    exists x :: p < x < |h| && h[x].key == h[p].key && h[x].rev.main == h[p].rev.main
  }

  lemma {:induction false} RunOnlyDeletesLost(cs: seq<Command>)
    requires NoCompaction(cs)
    ensures OnlyDeletesLost(RefRun(cs).hist)
  {
    hide CommandEvents, CommandCur, Present;
    if cs != [] {
      var pre, c := cs[..|cs| - 1], cs[|cs| - 1];
      RunOnlyDeletesLost(pre);
      RunRefOk(pre);
      var r := RefRun(pre);
      CommandOnlyDeletesLost(Present(r.hist), r.cur, c);
      CommandEventRevs(Present(r.hist), r.cur, c);
    }
  }

  lemma AppendHarmless(r: Reference, es: seq<Event>)
    requires RefOk(r) && AtMain(es, r.cur.main + 1) && Harmless(r.hist) && Harmless(es)
    ensures Harmless(r.hist + es)
  {
    var h := r.hist + es;
    forall p, q | 0 <= p < q < |h| && h[p].write.Delete? && h[q].write.Put? && h[p].rev == h[q].rev
      ensures ContinuesAfter(h, p)
    {
      var n := |r.hist|;
      if q < n {
        assert ContinuesAfter(r.hist, p);
        var x :| p < x < n && r.hist[x].key == r.hist[p].key && r.hist[x].rev.main == r.hist[p].rev.main;
        assert h[x] == r.hist[x];
      } else if p >= n {
        assert ContinuesAfter(es, p - n);
        var x :| p - n < x < |es| && es[x].key == es[p - n].key && es[x].rev.main == es[p - n].rev.main;
        assert h[n + x] == es[x];
      }
    }
  }

  /** In a harmless history no read lands on a delete that lost its revision. */
  lemma HarmlessSeen(r: Reference, k: Key, rev: int, p: nat)
    requires RefOk(r) && Harmless(r.hist)
    requires IsLastSeen(r.hist, k, AskedRev(r, rev), p) && r.hist[p].write.Delete?
    ensures !Displaced(r.hist, p)
  {
  }

  // ---------------------------------------------------------------- transactions, by their operations

  /** The keys that are open after the first n operations. */
  function KeysAfter(keys: set<Key>, ops: seq<Op>, n: nat): set<Key>
    requires n <= |ops|
  {
    if n == 0 then keys
    else
      var before := KeysAfter(keys, ops, n - 1);
      match ops[n - 1]
      case PutOp(k, _, _) => before + {k}
      case GetOp(_, _) => before
      case DeleteOp(k) => before - {k}
      case DeleteRangeOp(start, end) => set k | k in before && !InRange(k, start, end)
  }

  /** The keys operation i deletes, in ascending order. */
  function DoomedKeys(keys: set<Key>, ops: seq<Op>, i: nat): seq<Key>
    requires i < |ops| && ops[i].DeleteRangeOp?
  {
    RangeKeys(KeysAfter(keys, ops, i), ops[i].key, ops[i].end)
  }

  predicate PutAfter(ops: seq<Op>, i: nat, k: Key) {
    exists j :: i < j < |ops| && ops[j].PutOp? && ops[j].key == k
  }

  /** The put of operation q gets the revision of a key that range delete i removes for good. */
  predicate LandsOn(keys: set<Key>, ops: seq<Op>, i: nat, q: nat) {
    && i < q < |ops| && ops[i].DeleteRangeOp? && ops[q].PutOp?
    && q - i < |DoomedKeys(keys, ops, i)|
    && !PutAfter(ops, i, DoomedKeys(keys, ops, i)[q - i])
  }

  predicate Harmful(keys: set<Key>, ops: seq<Op>) {
    exists i, q :: 0 <= i < q < |ops| && LandsOn(keys, ops, i, q)
  }

  lemma {:induction false} DeletesLeave(live: map<Key, KeyValue>, ks: seq<Key>, base: Revision)
    ensures LiveAfter(live, DeleteEvents(ks, base)).Keys == live.Keys - set k | k in ks
  {
    var es := DeleteEvents(ks, base);
    if ks == [] {
      assert live.Keys - (set k | k in ks) == live.Keys;
    } else {
      var n := |ks| - 1;
      assert es[..n] == DeleteEvents(ks[..n], base);
      DeletesLeave(live, ks[..n], base);
      assert ks == ks[..n] + [ks[n]];
      assert (set k | k in ks) == (set k | k in ks[..n]) + {ks[n]};
    }
  }

  lemma OpKeys(live: map<Key, KeyValue>, ops: seq<Op>, keys: set<Key>, i: nat, rev: Revision)
    requires i < |ops| && live.Keys == KeysAfter(keys, ops, i)
    ensures LiveAfter(live, OpEvents(live, ops[i], rev)).Keys == KeysAfter(keys, ops, i + 1)
  {
    var es := OpEvents(live, ops[i], rev);
    match ops[i]
    case PutOp(k, v, l) => assert es[..0] == [];
    case GetOp(_, _) =>
    case DeleteOp(k) => assert es != [] ==> es[..0] == [];
    case DeleteRangeOp(start, end) =>
      DeletesLeave(live, RangeKeys(live.Keys, start, end), rev);
      assert KeysAfter(keys, ops, i + 1) == live.Keys - set k | k in RangeKeys(live.Keys, start, end);
  }

  lemma {:induction false} KeysAfterIs(live: map<Key, KeyValue>, ops: seq<Op>, main: int, n: nat)
    requires n <= |ops|
    ensures LiveAfter(live, TxnEvents(live, ops, main, n)).Keys == KeysAfter(live.Keys, ops, n)
  {
    hide LiveAfter, OpEvents, TxnEvents;
    if n == 0 {
      NothingYet(live, ops, main);
    } else {
      var es := TxnEvents(live, ops, main, n - 1);
      KeysAfterIs(live, ops, main, n - 1);
      TxnUnfold(live, ops, main, n, es);
      var now := LiveAfter(live, es);
      LiveAfterConcat(live, es, OpEvents(now, ops[n - 1], Revision(main, n - 1)));
      OpKeys(now, ops, live.Keys, n - 1, Revision(main, n - 1));
    }
  }

  lemma NothingYet(live: map<Key, KeyValue>, ops: seq<Op>, main: int)
    ensures TxnEvents(live, ops, main, 0) == [] && LiveAfter(live, TxnEvents(live, ops, main, 0)) == live
  {
  }

  /** A key that is not open and not put again stays out of the open keys. */
  lemma {:induction false} StaysOut(keys: set<Key>, ops: seq<Op>, i: nat, n: nat, k: Key)
    requires i < n <= |ops| && k !in KeysAfter(keys, ops, i + 1) && !PutAfter(ops, i, k)
    ensures k !in KeysAfter(keys, ops, n)
  {
    if i + 1 < n {
      StaysOut(keys, ops, i, n - 1, k);
    }
  }

  lemma OpTouches(live: map<Key, KeyValue>, op: Op, rev: Revision, a: nat)
    requires a < |OpEvents(live, op, rev)|
    ensures var e := OpEvents(live, op, rev)[a];
            e.write.Put? ==> op.PutOp? && op.key == e.key && a == 0
    ensures var e := OpEvents(live, op, rev)[a];
            e.write.Delete? ==> e.key in live
  {
    if op.DeleteRangeOp? {
      var ks := RangeKeys(live.Keys, op.key, op.end);
      assert ks[a] in ks;
    }
  }

  lemma {:induction false} FlattenIs(bs: seq<seq<Event>>, i: nat, a: nat)
    requires i < |bs| && a < |bs[i]|
    ensures |Flatten(bs[..i])| + a < |Flatten(bs)| && Flatten(bs)[|Flatten(bs[..i])| + a] == bs[i][a]
  {
    var n := |bs| - 1;
    if i < n {
      assert bs[..n][..i] == bs[..i];
      FlattenIs(bs[..n], i, a);
    }
  }

  lemma BlockOrder(bs: seq<seq<Event>>, i: nat, a: nat, j: nat)
    requires i < j <= |bs| && a < |bs[i]|
    ensures |Flatten(bs[..i])| + a < |Flatten(bs[..j])|
  {
    FlattenNext(bs, i);
    FlattenPrefix(bs, i + 1, j);
  }

  lemma RangeBlock(live: map<Key, KeyValue>, ops: seq<Op>, main: int, i: nat)
    requires i < |ops| && ops[i].DeleteRangeOp?
    ensures TxnBlocks(live, ops, main, |ops|)[i] == DeleteEvents(DoomedKeys(live.Keys, ops, i), Revision(main, i))
  {
    hide TxnBlocks, LiveAfter, DeleteEvents, KeysAfter;
    BlockIs(live, ops, main, |ops|, i);
    KeysAfterIs(live, ops, main, i);
  }

  lemma PutBlock(live: map<Key, KeyValue>, ops: seq<Op>, main: int, i: nat)
    requires i < |ops| && ops[i].PutOp?
    ensures TxnBlocks(live, ops, main, |ops|)[i] == [Event(Revision(main, i), ops[i].key, Put(ops[i].value, ops[i].lease))]
  {
    hide TxnBlocks, LiveAfter;
    BlockIs(live, ops, main, |ops|, i);
  }

  /** Whoever touches a key in block j either puts it there or finds it open. */
  lemma BlockTouches(live: map<Key, KeyValue>, ops: seq<Op>, main: int, j: nat, b: nat)
    requires j < |ops| && b < |TxnBlocks(live, ops, main, |ops|)[j]|
    ensures var e := TxnBlocks(live, ops, main, |ops|)[j][b];
            if e.write.Put? then ops[j].PutOp? && ops[j].key == e.key && b == 0 else e.key in KeysAfter(live.Keys, ops, j)
  {
    hide TxnBlocks, LiveAfter, OpEvents, KeysAfter;
    BlockIs(live, ops, main, |ops|, j);
    KeysAfterIs(live, ops, main, j);
    OpTouches(LiveAfter(live, TxnEvents(live, ops, main, j)), ops[j], Revision(main, j), b);
  }

  lemma DoomedGone(keys: set<Key>, ops: seq<Op>, i: nat, a: nat)
    requires i < |ops| && ops[i].DeleteRangeOp? && a < |DoomedKeys(keys, ops, i)|
    ensures DoomedKeys(keys, ops, i)[a] !in KeysAfter(keys, ops, i + 1)
    ensures forall b :: 0 <= b < |DoomedKeys(keys, ops, i)| && b != a ==> DoomedKeys(keys, ops, i)[b] != DoomedKeys(keys, ops, i)[a]
  {
    var ks := DoomedKeys(keys, ops, i);
    assert ks[a] in ks;
    forall b | 0 <= b < |ks| && b != a
      ensures ks[b] != ks[a]
    {
      if ks[b] == ks[a] {
        SortedDistinct(ks, a, b);
      }
    }
  }

  /** The tombstone at place a of range delete i is the last event of its key, unless the key is put again. */
  lemma NothingAfter(live: map<Key, KeyValue>, ops: seq<Op>, main: int, i: nat, a: nat, y: nat)
    requires i < |ops| && ops[i].DeleteRangeOp? && a < |DoomedKeys(live.Keys, ops, i)|
    requires !PutAfter(ops, i, DoomedKeys(live.Keys, ops, i)[a])
    requires var bs := TxnBlocks(live, ops, main, |ops|); |Flatten(bs[..i])| + a < y < |Flatten(bs)|
    ensures Flatten(TxnBlocks(live, ops, main, |ops|))[y].key != DoomedKeys(live.Keys, ops, i)[a]
  {
    hide TxnBlocks, Flatten, KeysAfter, DoomedKeys;
    var bs := TxnBlocks(live, ops, main, |ops|);
    var k := DoomedKeys(live.Keys, ops, i)[a];
    DoomedGone(live.Keys, ops, i, a);
    RangeBlock(live, ops, main, i);
    var j, b := FlattenIndex(bs, y);
    if j < i {
      BlockOrder(bs, j, b, i);
    } else if j > i {
      BlockTouches(live, ops, main, j, b);
      StaysOut(live.Keys, ops, i, j, k);
    }
  }

  lemma LandingHarms(live: map<Key, KeyValue>, ops: seq<Op>, main: int, i: nat, q: nat) returns (p: nat)
    requires LandsOn(live.Keys, ops, i, q)
    ensures var es := TxnEvents(live, ops, main, |ops|);
            && p < |es| && es[p] == Event(Revision(main, q), DoomedKeys(live.Keys, ops, i)[q - i], Delete)
            && Displaced(es, p) && !ContinuesAfter(es, p)
  {
    hide TxnBlocks, Flatten, KeysAfter, DoomedKeys;
    var bs := TxnBlocks(live, ops, main, |ops|);
    var a := q - i;
    RangeBlock(live, ops, main, i);
    PutBlock(live, ops, main, q);
    FlattenIs(bs, i, a);
    FlattenIs(bs, q, 0);
    BlockOrder(bs, i, a, q);
    p := |Flatten(bs[..i])| + a;
    var x := |Flatten(bs[..q])|;
    assert Flatten(bs)[x + 0] == bs[q][0];
    forall y | p < y < |Flatten(bs)|
      ensures Flatten(bs)[y].key != Flatten(bs)[p].key
    {
      NothingAfter(live, ops, main, i, a, y);
    }
    TxnIsFlat(live, ops, main);
    assert Flatten(bs)[x].rev == Flatten(bs)[p].rev && Flatten(bs)[x].write.Put?;
  }

  lemma HarmLands(live: map<Key, KeyValue>, ops: seq<Op>, main: int, p: nat, q: nat)
    requires var es := TxnEvents(live, ops, main, |ops|);
             && p < q < |es| && es[p].write.Delete? && es[q].write.Put? && es[p].rev == es[q].rev
             && !ContinuesAfter(es, p)
    ensures Harmful(live.Keys, ops)
  {
    hide TxnBlocks, Flatten, KeysAfter, DoomedKeys, TxnEvents;
    TxnIsFlat(live, ops, main);
    TxnAtMain(live, ops, main, |ops|);
    var es := TxnEvents(live, ops, main, |ops|);
    var bs := TxnBlocks(live, ops, main, |ops|);
    var i, j, a, b := SharedRevision(live, ops, main, p, q);
    BlockTouches(live, ops, main, j, b);
    RangeBlock(live, ops, main, i);
    var k := DoomedKeys(live.Keys, ops, i)[a];
    if PutAfter(ops, i, k) {
      var y :| i < y < |ops| && ops[y].PutOp? && ops[y].key == k;
      PutBlock(live, ops, main, y);
      FlattenIs(bs, y, 0);
      BlockOrder(bs, i, a, y);
    }
    assert LandsOn(live.Keys, ops, i, j);
  }

  /** A transaction harms no read exactly when none of its puts lands on a key deleted for good. */
  lemma TxnHarmless(live: map<Key, KeyValue>, ops: seq<Op>, main: int)
    ensures Harmless(TxnEvents(live, ops, main, |ops|)) <==> !Harmful(live.Keys, ops)
  {
    hide TxnEvents, LandsOn;
    var es := TxnEvents(live, ops, main, |ops|);
    if Harmful(live.Keys, ops) {
      var i, q :| 0 <= i < q < |ops| && LandsOn(live.Keys, ops, i, q);
      var p := LandingHarms(live, ops, main, i, q);
      var x :| p < x < |es| && es[x].rev == es[p].rev && es[x].write.Put?;
    }
    if !Harmless(es) {
      var p, q :| 0 <= p < q < |es| && es[p].write.Delete? && es[q].write.Put? && es[p].rev == es[q].rev && !ContinuesAfter(es, p);
      HarmLands(live, ops, main, p, q);
    }
  }

  // ---------------------------------------------------------------- runs

  /** What a caller can check of a command before it: by its operations and the open keys. */
  predicate HarmlessStep(live: map<Key, KeyValue>, c: Command) {
    c.CTxn? ==> !Harmful(live.Keys, ChosenOps(live, c))
  }

  predicate HarmlessRun(cs: seq<Command>) {
    cs == [] || (HarmlessRun(cs[..|cs| - 1]) && HarmlessStep(Run(cs[..|cs| - 1]).live, cs[|cs| - 1]))
  }

  lemma CommandHarmless(live: map<Key, KeyValue>, cur: Revision, c: Command)
    requires HarmlessStep(live, c)
    ensures Harmless(CommandEvents(live, cur, c))
  {
    hide TxnEvents, Harmful, DeleteEvents, RangeKeys;
    if c.CTxn? {
      TxnHarmless(live, ChosenOps(live, c), cur.main + 1);
    } else {
      CommandNumbered(live, cur, c);
    }
  }

  lemma LiveIsPresent(cs: seq<Command>)
    requires NoCompaction(cs)
    ensures Run(cs).live == Present(RefRun(cs).hist)
  {
    hide Run, RefRun, Present, LiveAfter, Entries;
    RunSimulates(cs);
    PresentIsLive(RefRun(cs).hist);
  }

  lemma {:induction false} RunHarmless(cs: seq<Command>)
    requires NoCompaction(cs) && HarmlessRun(cs)
    ensures Harmless(RefRun(cs).hist)
  {
    hide CommandEvents, CommandCur, Present, HarmlessStep, Run, RefOk;
    if cs != [] {
      var pre, c := cs[..|cs| - 1], cs[|cs| - 1];
      RunHarmless(pre);
      RunRefOk(pre);
      LiveIsPresent(pre);
      var r := RefRun(pre);
      CommandHarmless(Present(r.hist), r.cur, c);
      CommandEventRevs(Present(r.hist), r.cur, c);
      AppendHarmless(r, CommandEvents(Present(r.hist), r.cur, c));
    }
  }

  lemma StoreGetIs(cs: seq<Command>, k: Key, rev: int)
    requires NoCompaction(cs)
    ensures var r := RefRun(cs);
            StoreGet(Run(cs), k, rev) == RefGet(r, k, rev) <==>
            k == [] || rev < 0 || r.cur.LessThan(AskedRev(r, rev)) || !Misled(r.hist, k, AskedRev(r, rev))
  {
    hide Run, RefRun, Misled, StoreReadAt, ReadAt, Replay, Visible, Entries;
    var r := RefRun(cs);
    HistoryRefinement(cs, k, rev);
    RunSimulates(cs);
    RunRefOk(cs);
    RunOnlyDeletesLost(cs);
    StoreReadExact(r.hist, k, AskedRev(r, rev));
  }

  /** Every point read answers with the replay of the visible history. */
  ghost predicate Faithful(cs: seq<Command>) {
    forall k, rev :: StoreGet(Run(cs), k, rev) == RefGet(RefRun(cs), k, rev)
  }

  /** Reads of a harmless run are replays, clean or not. */
  lemma HarmlessReads(cs: seq<Command>, k: Key, rev: int)
    requires NoCompaction(cs) && HarmlessRun(cs)
    ensures StoreGet(Run(cs), k, rev) == RefGet(RefRun(cs), k, rev)
  {
    hide Run, RefRun, StoreGet, RefGet, HarmlessRun;
    var r := RefRun(cs);
    StoreGetIs(cs, k, rev);
    RunHarmless(cs);
    RunRefOk(cs);
    if Misled(r.hist, k, AskedRev(r, rev)) {
      var p: nat :| IsLastSeen(r.hist, k, AskedRev(r, rev), p) && r.hist[p].write.Delete? && Displaced(r.hist, p);
      HarmlessSeen(r, k, rev, p);
    }
  }

  /** The same for range reads. */
  lemma HarmlessRanges(cs: seq<Command>, start: Key, end: Option<Key>, rev: int, limit: int)
    requires NoCompaction(cs) && HarmlessRun(cs)
    ensures StoreRange(Run(cs), start, end, rev, limit) == RefRange(RefRun(cs), start, end, rev, limit)
  {
    hide Run, RefRun, HarmlessRun, RefRange, Harmless, RefOk, StoreReadAll, ReadAll, RangeKeys, Entries;
    var r := RefRun(cs);
    RangeRefinement(cs, start, end, rev, limit);
    RunSimulates(cs);
    RunHarmless(cs);
    RunRefOk(cs);
    RunOnlyDeletesLost(cs);
    StoreReadsAll(r, RangeKeys(LogKeys(Run(cs).log), start, end), rev);
  }

  lemma {:induction false} StoreReadsAll(r: Reference, ks: seq<Key>, rev: int)
    requires RefOk(r) && Harmless(r.hist) && OnlyDeletesLost(r.hist)
    ensures var log := Entries(map[], r.hist);
            StoreReadAll(log, ks, AskedRev(r, rev)) == ReadAll(log, ks, AskedRev(r, rev))
  {
    hide RefOk, Harmless, OnlyDeletesLost, StoreReadAt, ReadAt, Entries, Misled;
    if ks != [] {
      StoreReadsAll(r, ks[..|ks| - 1], rev);
      NeverMisled(r, ks[|ks| - 1], rev);
      StoreReadExact(r.hist, ks[|ks| - 1], AskedRev(r, rev));
    }
  }

  lemma NeverMisled(r: Reference, k: Key, rev: int)
    requires RefOk(r) && Harmless(r.hist)
    ensures !Misled(r.hist, k, AskedRev(r, rev))
  {
    hide RefOk, Harmless, Displaced;
    if Misled(r.hist, k, AskedRev(r, rev)) {
      var p: nat :| IsLastSeen(r.hist, k, AskedRev(r, rev), p) && r.hist[p].write.Delete? && Displaced(r.hist, p);
      HarmlessSeen(r, k, rev, p);
    }
  }

  // ---------------------------------------------------------------- a harmful transaction shows

  /** A history that ends in the events of one command and a later put of another key. */
  lemma SeenLast(h0: seq<Event>, es: seq<Event>, d: Event, p: nat, at: Revision)
    requires p < |es| && d.key != es[p].key && AtMain(es, es[p].rev.main) && !ContinuesAfter(es, p)
    requires es[p].rev.AtMost(at)
    ensures IsLastSeen(h0 + es + [d], es[p].key, at, |h0| + p)
  {
    var h := h0 + es + [d];
    forall x | |h0| + p < x < |h|
      ensures h[x].key != es[p].key
    {
      if x < |h0| + |es| {
        assert h[x] == es[x - |h0|];
      }
    }
  }

  /** What the store holds under a revision: its last entry. */
  lemma {:induction false} StoredUnder(log: seq<Entry>, x: nat)
    requires x < |log| && forall y :: x < y < |log| ==> log[y].rev != log[x].rev
    ensures log[x].rev in StoreOf(log) && StoreOf(log)[log[x].rev] == log[x].kv
  {
    var n := |log| - 1;
    if x < n {
      StoredUnder(log[..n], x);
      assert log[n].rev != log[x].rev;
    }
  }

  /** A store read of k whose last visible event is a delete under which the put x now lies. */
  lemma MisledRead(h: seq<Event>, k: Key, at: Revision, p: nat, x: nat)
    requires IsLastSeen(h, k, at, p) && h[p].write.Delete?
    requires x < |h| && h[x].rev == h[p].rev && h[x].write.Put?
    requires forall y :: x < y < |h| ==> h[y].rev != h[p].rev
    ensures ReadAt(Entries(map[], h), k, at) == None
    ensures StoreReadAt(Entries(map[], h), k, at) == Some(Entries(map[], h)[x].kv)
  {
    hide Entries, StoreOf, LastAt;
    LastSeenIs(h, k, at, p);
    StoredUnder(Entries(map[], h), x);
    EntryKind(h, p);
    EntryKind(h, x);
  }

  lemma LastSeenIs(h: seq<Event>, k: Key, at: Revision, p: nat)
    requires IsLastSeen(h, k, at, p)
    ensures LastAt(Entries(map[], h), k, at) == Some(Entries(map[], h)[p])
  {
    hide Entries, LastAt;
    var q := LastSeen(h, k, at);
  }

  /** The put that takes the revision is the last event of that revision. */
  lemma LandingLast(live: map<Key, KeyValue>, ops: seq<Op>, main: int, i: nat, q: nat) returns (p: nat, x: nat)
    requires LandsOn(live.Keys, ops, i, q)
    ensures var es := TxnEvents(live, ops, main, |ops|);
            && p < x < |es| && es[p] == Event(Revision(main, q), DoomedKeys(live.Keys, ops, i)[q - i], Delete)
            && es[x] == Event(Revision(main, q), ops[q].key, Put(ops[q].value, ops[q].lease))
            && !ContinuesAfter(es, p)
            && (forall y :: x < y < |es| ==> es[y].rev != es[x].rev)
  {
    hide TxnBlocks, Flatten, KeysAfter, DoomedKeys, ContinuesAfter, Displaced;
    var bs := TxnBlocks(live, ops, main, |ops|);
    p := LandingHarms(live, ops, main, i, q);
    TxnIsFlat(live, ops, main);
    PutBlock(live, ops, main, q);
    FlattenIs(bs, q, 0);
    x := |Flatten(bs[..q])|;
    TxnBlocksNumbered(live, ops, main, |ops|);
    var es := TxnEvents(live, ops, main, |ops|);
    forall y | x < y < |es|
      ensures es[y].rev != es[x].rev
    {
      var j, b := FlattenIndex(bs, y);
      assert NumberedFrom(bs[j], Revision(main, j));
      if j < q {
        BlockOrder(bs, j, b, q);
      }
    }
    LandsBefore(es, p, x);
  }

  lemma LandsBefore(es: seq<Event>, p: nat, x: nat)
    requires p < |es| && x < |es| && es[p].write.Delete? && es[x].write.Put? && Displaced(es, p) && es[p].rev == es[x].rev
    requires forall y :: x < y < |es| ==> es[y].rev != es[x].rev
    ensures p < x
  {
  }

  lemma RunTwo(pre: seq<Command>, c: Command, d: Command)
    ensures RefRun(pre + [c] + [d]) == RefStep(RefStep(RefRun(pre), c), d)
  {
    assert (pre + [c] + [d])[..|pre| + 1] == pre + [c];
    assert (pre + [c])[..|pre|] == pre;
  }

  /** After a harmful transaction and one more put, the store answers the read of a deleted key with
      the KeyValue of another key; the replay knows the key is gone. */
  lemma HarmShows(pre: seq<Command>, c: Command, d: Command, i: nat, q: nat)
    requires NoCompaction(pre) && c.CTxn? && d.CPut? && d.key != []
    requires var live := Run(pre).live;
             LandsOn(live.Keys, ChosenOps(live, c), i, q) && d.key != DoomedKeys(live.Keys, ChosenOps(live, c), i)[q - i]
    ensures var live := Run(pre).live;
            var ops := ChosenOps(live, c);
            var k := DoomedKeys(live.Keys, ops, i)[q - i];
            var answer := StoreGet(Run(pre + [c] + [d]), k, 0);
            && k != [] && ops[q].key != k
            && RefGet(RefRun(pre + [c] + [d]), k, 0) == Err(KeyNotFound)
            && answer.Ok? && answer.value.key == ops[q].key && answer.value.value == ops[q].value
  {
    hide Run, RefRun, LandsOn, DoomedKeys, ChosenOps, TxnEvents, Present, Entries, ReadAt, StoreReadAt, ContinuesAfter, Visible, Replay;
    var r0 := RefRun(pre);
    var live := Run(pre).live;
    var ops := ChosenOps(live, c);
    LiveIsPresent(pre);
    LandedKey(live.Keys, ops, i, q);
    var main := r0.cur.main + 1;
    var es := TxnEvents(live, ops, main, |ops|);
    var p, x := LandingLast(live, ops, main, i, q);
    TxnAtMain(live, ops, main, |ops|);
    var put := Event(Revision(main + 1, 0), d.key, Put(d.value, d.lease));
    AfterTwo(pre, c, d);
    MisledTail(r0.hist, es, put, p, x);
    assert NoCompaction(pre + [c] + [d]);
    StoreReadsHistory(pre + [c] + [d], es[p].key);
  }

  lemma StoreReadsHistory(cs: seq<Command>, k: Key)
    requires NoCompaction(cs) && k != []
    ensures var log := Entries(map[], RefRun(cs).hist);
            && StoreGet(Run(cs), k, 0) == (match StoreReadAt(log, k, RefRun(cs).cur) case None => Err(KeyNotFound) case Some(kv) => Ok(kv))
            && RefGet(RefRun(cs), k, 0) == (match ReadAt(log, k, RefRun(cs).cur) case None => Err(KeyNotFound) case Some(kv) => Ok(kv))
  {
    hide Run, RefRun, Entries, ReadAt, StoreReadAt, Visible, Replay;
    RunSimulates(cs);
    RunRefOk(cs);
    HistoryRefinement(cs, k, 0);
  }

  lemma AfterTwo(pre: seq<Command>, c: Command, d: Command)
    requires NoCompaction(pre) && c.CTxn? && d.CPut? && d.key != []
    ensures var live, r0 := Run(pre).live, RefRun(pre);
            var main, ops := r0.cur.main + 1, ChosenOps(live, c);
            RefRun(pre + [c] + [d]) ==
            Reference(r0.hist + TxnEvents(live, ops, main, |ops|) + [Event(Revision(main + 1, 0), d.key, Put(d.value, d.lease))],
                      Revision(main + 1, 0))
  {
    hide Run, RefRun, ChosenOps, TxnEvents, Present;
    LiveIsPresent(pre);
    RunTwo(pre, c, d);
  }

  lemma MisledTail(h0: seq<Event>, es: seq<Event>, d: Event, p: nat, x: nat)
    requires p < x < |es| && es[p].write.Delete? && es[x].write.Put? && es[x].rev == es[p].rev
    requires AtMain(es, es[p].rev.main) && !ContinuesAfter(es, p) && forall y :: x < y < |es| ==> es[y].rev != es[x].rev
    requires d.key != es[p].key && d.rev == Revision(es[p].rev.main + 1, 0)
    ensures var log := Entries(map[], h0 + es + [d]);
            && ReadAt(log, es[p].key, d.rev) == None
            && var kv := StoreReadAt(log, es[p].key, d.rev);
               kv.Some? && kv.value.key == es[x].key && kv.value.value == es[x].write.value
  {
    hide Entries, ReadAt, StoreReadAt, ContinuesAfter;
    var h, n := h0 + es + [d], |h0|;
    SeenLast(h0, es, d, p, d.rev);
    LastInWhole(h0, es, d, x);
    assert h[n + p] == es[p] && h[n + x] == es[x];
    MisledRead(h, es[p].key, d.rev, n + p, n + x);
    PutEntry(h, n + x);
  }

  lemma LandedKey(keys: set<Key>, ops: seq<Op>, i: nat, q: nat)
    requires LandsOn(keys, ops, i, q)
    ensures DoomedKeys(keys, ops, i)[q - i] != [] && ops[q].key != DoomedKeys(keys, ops, i)[q - i]
  {
    var ks := DoomedKeys(keys, ops, i);
    assert Less(ks[0], ks[q - i]);
  }

  lemma LastInWhole(h0: seq<Event>, es: seq<Event>, d: Event, x: nat)
    requires x < |es| && d.rev != es[x].rev && forall y :: x < y < |es| ==> es[y].rev != es[x].rev
    ensures var h := h0 + es + [d]; forall y :: |h0| + x < y < |h| ==> h[y].rev != es[x].rev
  {
    var h := h0 + es + [d];
    forall y | |h0| + x < y < |h|
      ensures h[y].rev != es[x].rev
    {
      if y < |h0| + |es| {
        assert h[y] == es[y - |h0|];
      }
    }
  }

  lemma {:induction false} PutEntry(h: seq<Event>, x: nat)
    requires x < |h| && h[x].write.Put?
    ensures Entries(map[], h)[x].kv.key == h[x].key && Entries(map[], h)[x].kv.value == h[x].write.value
  {
    if x < |h| - 1 {
      PutEntry(h[..|h| - 1], x);
    }
  }

  // ---------------------------------------------------------------- exactly when

  lemma {:induction false} HarmlessPrefix(cs: seq<Command>, n: nat)
    requires HarmlessRun(cs) && n <= |cs|
    ensures HarmlessRun(cs[..n])
  {
    if n == |cs| {
      assert cs[..n] == cs;
    } else {
      HarmlessPrefix(cs[..|cs| - 1], n);
      assert cs[..|cs| - 1][..n] == cs[..n];
    }
  }

  lemma {:induction false} FirstHarm(cs: seq<Command>) returns (n: nat)
    requires !HarmlessRun(cs)
    ensures n < |cs| && !HarmlessStep(Run(cs[..n]).live, cs[n])
  {
    hide HarmlessStep, Run;
    n := |cs| - 1;
    if !HarmlessRun(cs[..n]) {
      n := FirstHarm(cs[..n]);
      assert cs[..|cs| - 1][..n] == cs[..n];
    }
  }

  lemma PutKeepsHarmless(cs: seq<Command>, d: Command)
    requires HarmlessRun(cs) && d.CPut?
    ensures HarmlessRun(cs + [d])
  {
    hide Run;
    assert (cs + [d])[..|cs|] == cs;
  }

  lemma NotFaithful(cs: seq<Command>, n: nat, d: Command, k: Key, rev: int)
    requires n <= |cs| && d.CPut?
    requires StoreGet(Run(cs[..n] + [d]), k, rev) != RefGet(RefRun(cs[..n] + [d]), k, rev)
    ensures !FaithfulAround(cs)
  {
    assert !Faithful(cs[..n] + [d]);
  }

  /** Every point read is the replay: throughout the run, and after one more put anywhere in it. */
  ghost predicate FaithfulAround(cs: seq<Command>) {
    && Faithful(cs)
    && forall n, d: Command :: 0 <= n <= |cs| && d.CPut? ==> Faithful(cs[..n] + [d])
  }

  /** Reads through index and revision store are replays of the history exactly when no transaction
      of the run puts on the revision of a key that it deletes for good. */
  lemma ReadsAreReplaysExactly(cs: seq<Command>)
    requires NoCompaction(cs)
    ensures FaithfulAround(cs) <==> HarmlessRun(cs)
  {
    hide Run, RefRun, StoreGet, RefGet, HarmlessRun, LandsOn, DoomedKeys, ChosenOps;
    if HarmlessRun(cs) {
      forall k, rev
        ensures StoreGet(Run(cs), k, rev) == RefGet(RefRun(cs), k, rev)
      {
        HarmlessReads(cs, k, rev);
      }
      forall n, d: Command | 0 <= n <= |cs| && d.CPut?
        ensures Faithful(cs[..n] + [d])
      {
        HarmlessPrefix(cs, n);
        PutKeepsHarmless(cs[..n], d);
        forall k, rev
          ensures StoreGet(Run(cs[..n] + [d]), k, rev) == RefGet(RefRun(cs[..n] + [d]), k, rev)
        {
          HarmlessReads(cs[..n] + [d], k, rev);
        }
      }
    } else {
      var n := FirstHarm(cs);
      var live := Run(cs[..n]).live;
      var ops := ChosenOps(live, cs[n]);
      var i, q :| 0 <= i < q < |ops| && LandsOn(live.Keys, ops, i, q);
      LandedKey(live.Keys, ops, i, q);
      var k := DoomedOf(live.Keys, ops, i, q);
      var d := CPut(k + [0], [], 0);
      HarmShows(cs[..n], cs[n], d, i, q);
      assert cs[..n] + [cs[n]] == cs[..n + 1];
      NotFaithful(cs, n + 1, d, k, 0);
    }
  }

  function DoomedOf(keys: set<Key>, ops: seq<Op>, i: nat, q: nat): Key
    requires LandsOn(keys, ops, i, q)
  {
    DoomedKeys(keys, ops, i)[q - i]
  }

  // ---------------------------------------------------------------- two small transactions

  const PutOneAndTwo := [CPut([1], [10], 0), CPut([2], [20], 0)]

  function SweepAndPut(k: Key): Command { CTxn([], SweepOps(k), []) }

  function SweepOps(k: Key): seq<Op> { [DeleteRangeOp([1], None), PutOp(k, [30], 0)] }

  lemma OneAndTwoLog()
    ensures var m := Run(PutOneAndTwo);
            && m.cur == Revision(2, 0) && m.compacted == Zero
            && m.live.Keys == {[1], [2]}
            && m.log == [Entry(Revision(1, 0), KeyValue([1], [10], 1, 1, 1, 0)), Entry(Revision(2, 0), KeyValue([2], [20], 2, 2, 1, 0))]
  {
    hide Run, Step;
    var a, b := CPut([1], [10], 0), CPut([2], [20], 0);
    RunOne(a);
    RunSnoc([a], b);
    assert [a] + [b] == PutOneAndTwo;
    StepOne(Init, a, Event(Revision(1, 0), [1], Put([10], 0)));
    StepOne(Run([a]), b, Event(Revision(2, 0), [2], Put([20], 0)));
  }

  lemma SweptKeys(k: Key)
    ensures DoomedKeys({[1], [2]}, SweepOps(k), 0) == [[1], [2]]
  {
    var keys: set<Key> := {[1], [2]};
    assert KeysAfter(keys, SweepOps(k), 0) == keys;
    assert InRange([1], [1], None) && InRange([2], [1], None);
    AscendingUnique([[1], [2]], set x | x in keys && InRange(x, [1], None));
  }

  /** Sweeping two keys and putting a third: the third takes the second tombstone's revision, and the
      next read of the second key is answered with the third. */
  lemma DeletedKeyReadsAsAnother()
    ensures var cs := PutOneAndTwo + [SweepAndPut([3])] + [CPut([4], [], 0)];
            && RefGet(RefRun(cs), [2], 4) == RefGet(RefRun(cs), [2], 0) == Err(KeyNotFound)
            && StoreGet(Run(cs), [2], 4) == StoreGet(Run(cs), [2], 0)
            && StoreGet(Run(cs), [2], 0).Ok? && StoreGet(Run(cs), [2], 0).value.key == [3]
  {
    hide Run, RefRun, StoreGet, RefGet, DoomedKeys;
    OneAndTwoLog();
    SweptKeys([3]);
    assert !PutAfter(SweepOps([3]), 0, [2]);
    HarmShows(PutOneAndTwo, SweepAndPut([3]), CPut([4], [], 0), 0, 1);
    AfterTwo(PutOneAndTwo, SweepAndPut([3]), CPut([4], [], 0));
    RunSimulates(PutOneAndTwo);
    var cs := PutOneAndTwo + [SweepAndPut([3])] + [CPut([4], [], 0)];
    RunSimulates(cs);
    CurrentByNumber(cs, [2], 4);
  }

  lemma CurrentByNumber(cs: seq<Command>, k: Key, rev: int)
    requires Run(cs).cur == RefRun(cs).cur == Revision(rev, 0) && rev > 0
    ensures StoreGet(Run(cs), k, rev) == StoreGet(Run(cs), k, 0) && RefGet(RefRun(cs), k, rev) == RefGet(RefRun(cs), k, 0)
  {
    hide Run, RefRun, StoreReadAt, Visible, Replay;
  }

  /** Putting the second key back shares a revision too, but misleads no read. */
  lemma SharedRevisionCanBeHarmless()
    ensures !CleanStep(Run(PutOneAndTwo), SweepAndPut([2])) && HarmlessRun(PutOneAndTwo + [SweepAndPut([2])])
  {
    hide Run, DoomedKeys, CleanStep;
    OneAndTwoLog();
    SweptKeys([2]);
    var m, ops := Run(PutOneAndTwo), SweepOps([2]);
    assert ops[1].PutOp? && ops[1].key == [2];
    PutsAreHarmless(PutOneAndTwo);
    assert (PutOneAndTwo + [SweepAndPut([2])])[..2] == PutOneAndTwo;
    SweepClashes(m);
  }

  lemma {:induction false} PutsAreHarmless(cs: seq<Command>)
    requires forall i :: 0 <= i < |cs| ==> cs[i].CPut?
    ensures HarmlessRun(cs)
  {
    if cs != [] {
      PutsAreHarmless(cs[..|cs| - 1]);
    }
  }

  lemma SweepClashes(m: Machine)
    requires m.live.Keys == {[1], [2]}
    ensures !CleanStep(m, SweepAndPut([2]))
  {
    hide TxnBlocks, DoomedKeys, DeleteEvents;
    var ops, main := SweepOps([2]), m.cur.main + 1;
    SweptKeys([2]);
    RangeBlock(m.live, ops, main, 0);
    PutBlock(m.live, ops, main, 1);
    TombstonePerKey([[1], [2]], Revision(main, 0));
    assert |TxnBlocks(m.live, ops, main, 2)[0]| == 2 && |TxnBlocks(m.live, ops, main, 2)[1]| == 1;
  }

  lemma TombstonePerKey(ks: seq<Key>, base: Revision)
    ensures |DeleteEvents(ks, base)| == |ks|
  {
  }
}

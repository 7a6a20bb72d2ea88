/** The in-memory MVCC store: KeyIndex plus a revision-keyed store, proved to refine MvccSpec.Step. */
module MemoryStores {
  import opened Bytes
  import opened Revisions
  import opened MvccSpec
  import opened MvccTheorems
  import opened KeyIndexes

  // ---------------------------------------------------------------- index and log

  /** The index lists exactly the log's revisions of each key, and its open keys are the live ones. */
  ghost predicate IndexIs(tree: map<Key, KeyItem>, log: seq<Entry>, live: map<Key, KeyValue>) {
    && (forall k :: RevsIn(tree, k) == KeyRevs(log, k))
    && (forall k :: k in live <==> k in tree && !tree[k].IsDeleted())
  }

  lemma OneEvent(m: Machine, e: Event)
    ensures Wrote(m, [e]) == m.(log := m.log + [Entry(e.rev, NewKv(m.live, e))], live := LiveAfter1(m.live, e))
  {
    assert [e][..0] == [];
    assert LiveAfter(m.live, []) == m.live && Entries(m.live, []) == [];
    assert Entries(m.live, [e]) == [] + [Entry(e.rev, NewKv(m.live, e))];
  }

  lemma NoEvents(m: Machine)
    ensures Wrote(m, []) == m
  {
    assert m.log + Entries(m.live, []) == m.log;
  }

  lemma WroteConcat(m: Machine, a: seq<Event>, b: seq<Event>)
    ensures Wrote(Wrote(m, a), b) == Wrote(m, a + b)
  {
    hide LiveAfter, Entries;
    LiveAfterConcat(m.live, a, b);
    EntriesConcat(m.live, a, b);
  }

  lemma SnocLog(log: seq<Entry>, e: Entry)
    ensures StoreOf(log + [e]) == StoreOf(log)[e.rev := e.kv]
    ensures forall k :: KeyRevs(log + [e], k) == KeyRevs(log, k) + (if e.kv.key == k then [e.rev] else [])
  {
    assert (log + [e])[..|log|] == log;
  }

  /** The index after one written event. */
  lemma IndexFollows(tree: map<Key, KeyItem>, tree': map<Key, KeyItem>, m: Machine, e: Event)
    requires IndexIs(tree, m.log, m.live)
    requires e.key in tree' && tree' == tree[e.key := tree'[e.key]]
    requires RevsIn(tree', e.key) == RevsIn(tree, e.key) + [e.rev]
    requires !tree'[e.key].IsDeleted() <==> e.write.Put?
    ensures IndexIs(tree', Wrote(m, [e]).log, Wrote(m, [e]).live)
  {
    OneEvent(m, e);
    SnocLog(m.log, Entry(e.rev, NewKv(m.live, e)));
    forall k
      ensures RevsIn(tree', k) == KeyRevs(Wrote(m, [e]).log, k)
    {
      assert RevsIn(tree, k) == KeyRevs(m.log, k);
    }
  }

  /** The revision store after one written event. */
  lemma StoreFollows(m: Machine, e: Event)
    requires NoZero(m.log) && e.rev != Zero
    ensures NoZero(Wrote(m, [e]).log)
    ensures StoreOf(Wrote(m, [e]).log) == StoreOf(m.log)[e.rev := NewKv(m.live, e)]
  {
    hide StoreOf, Wrote, KeyRevs, NewKv;
    OneEvent(m, e);
    SnocLog(m.log, Entry(e.rev, NewKv(m.live, e)));
  }

  // ---------------------------------------------------------------- scans of the current state

  ghost predicate NoZero(log: seq<Entry>) {
    forall i :: 0 <= i < |log| ==> log[i].rev != Zero
  }

  function HitKeys(hits: seq<(Key, Revision)>): seq<Key> {
    seq(|hits|, i requires 0 <= i < |hits| => hits[i].0)
  }

  lemma {:induction false} HitsExact(tree: map<Key, KeyItem>, ks: seq<Key>, at: Revision)
    requires Sorted(ks)
    ensures Sorted(HitKeys(Hits(tree, ks, at)))
    ensures forall k :: k in HitKeys(Hits(tree, ks, at)) <==> k in ks && RevAt(tree, k, at) != Zero
    ensures forall i :: 0 <= i < |Hits(tree, ks, at)| ==> Hits(tree, ks, at)[i].1 == RevAt(tree, Hits(tree, ks, at)[i].0, at)
  {
    if ks != [] {
      var n := |ks| - 1;
      var front, k := ks[..n], ks[n];
      HitsExact(tree, front, at);
      assert ks == front + [k];
      var hs := HitKeys(Hits(tree, front, at));
      if RevAt(tree, k, at) == Zero {
        assert Hits(tree, ks, at) == Hits(tree, front, at);
      } else {
        assert HitKeys(Hits(tree, ks, at)) == hs + [k];
        forall i | 0 <= i < |hs|
          ensures Less(hs[i], k)
        {
          assert hs[i] in hs;
        }
      }
    }
  }

  /** Index and revision store together hold exactly the log. */
  ghost predicate Stores(tree: map<Key, KeyItem>, store: map<Revision, KeyValue>, log: seq<Entry>, live: map<Key, KeyValue>) {
    NoZero(log) && store == StoreOf(log) && IndexIs(tree, log, live)
  }

  lemma LastIsRevAt(tree: map<Key, KeyItem>, log: seq<Entry>, live: map<Key, KeyValue>, k: Key)
    requires IndexIs(tree, log, live) && NoZero(log)
    ensures k in live ==> RevAt(tree, k, Zero) == LastRev(log, k) != Zero
    ensures k !in live ==> RevAt(tree, k, Zero) == Zero
  {
    assert RevsIn(tree, k) == KeyRevs(log, k);
    if k in live {
      KeyRevsExact(log, k, LastRev(log, k));
    }
  }

  /** The KeyValue at the key's newest revision, when the key is not deleted. */
  function CurrentOf(tree: map<Key, KeyItem>, store: map<Revision, KeyValue>, key: Key): Option<KeyValue>
  {
    var prevRev := RevAt(tree, key, Zero);
    if prevRev != Zero && prevRev in store then Some(store[prevRev]) else None
  }

  lemma CurrentIsLive(tree: map<Key, KeyItem>, store: map<Revision, KeyValue>, log: seq<Entry>, live: map<Key, KeyValue>,
                      bound: Revision, key: Key)
    requires Stores(tree, store, log, live) && Coherent(log, live, bound)
    ensures CurrentOf(tree, store, key) == if key in live then Some(live[key]) else None
    ensures key in live ==> RevsIn(tree, key) != [] && RevsIn(tree, key)[|RevsIn(tree, key)| - 1].LessThan(bound)
  {
    LastIsRevAt(tree, log, live, key);
    assert RevsIn(tree, key) == KeyRevs(log, key);
  }

  lemma OpenIsLive(tree: map<Key, KeyItem>, store: map<Revision, KeyValue>, log: seq<Entry>, live: map<Key, KeyValue>, key: Key)
    requires Stores(tree, store, log, live)
    ensures key in live <==> key in tree && !tree[key].IsDeleted()
  {
  }

  /** A scan at Zero finds exactly the live keys of the interval. */
  lemma LiveHits(tree: map<Key, KeyItem>, store: map<Revision, KeyValue>, log: seq<Entry>, live: map<Key, KeyValue>,
                 start: Key, end: Option<Key>)
    requires Stores(tree, store, log, live)
    ensures HitKeys(Hits(tree, RangeKeys(tree.Keys, start, end), Zero)) == RangeKeys(live.Keys, start, end)
    ensures Sorted(RangeKeys(live.Keys, start, end))
    ensures forall i :: 0 <= i < |RangeKeys(live.Keys, start, end)| ==> RangeKeys(live.Keys, start, end)[i] in live
  {
    var ks := RangeKeys(tree.Keys, start, end);
    HitsExact(tree, ks, Zero);
    var s := set k | k in live.Keys && InRange(k, start, end);
    forall k
      ensures k in HitKeys(Hits(tree, ks, Zero)) <==> k in s
    {
      LastIsRevAt(tree, log, live, k);
    }
    AscendingUnique(HitKeys(Hits(tree, ks, Zero)), s);
  }

  // ---------------------------------------------------------------- reads at a revision

  lemma {:induction false} LatestIsLastAt(log: seq<Entry>, k: Key, at: Revision)
    requires NoZero(log)
    ensures LastAt(log, k, at).None? ==> LatestIn(KeyRevs(log, k), at) == Zero
    ensures LastAt(log, k, at).Some? ==> LatestIn(KeyRevs(log, k), at) == LastAt(log, k, at).value.rev != Zero
  {
    if log != [] {
      var n := |log| - 1;
      LatestIsLastAt(log[..n], k, at);
      var revs := KeyRevs(log[..n], k);
      if log[n].kv.key == k {
        assert KeyRevs(log, k)[..|revs|] == revs;
      } else {
        assert KeyRevs(log, k) == revs;
      }
    }
  }

  /** A lookup through index and store is the store read, whether revisions are unique or not. */
  lemma LookupKey(tree: map<Key, KeyItem>, log: seq<Entry>, k: Key, at: Revision)
    requires RevsIn(tree, k) == KeyRevs(log, k) && NoZero(log)
    requires k in tree ==> ItemOk(tree[k])
    ensures var r := if k in tree then Find(tree[k].gens, at) else Zero;
            if r == Zero then StoreReadAt(log, k, at).None?
            else r in StoreOf(log) && StoreReadAt(log, k, at) == (if StoreOf(log)[r].version == 0 then None else Some(StoreOf(log)[r]))
  {
    if k in tree {
      FindIsLastListed(tree[k].gens, at);
    }
    LatestIsLastAt(log, k, at);
    LastAtIn(log, k, at);
    if LastAt(log, k, at).Some? {
      StoreOfKeys(log, LastAt(log, k, at).value.rev);
    }
  }

  lemma {:induction false} LastAtIn(log: seq<Entry>, k: Key, at: Revision)
    ensures LastAt(log, k, at).Some? ==> exists i :: 0 <= i < |log| && log[i] == LastAt(log, k, at).value
  {
    if log != [] {
      var n := |log| - 1;
      LastAtIn(log[..n], k, at);
      if LastAt(log, k, at).Some? && LastAt(log, k, at).value != log[n] {
        var i :| 0 <= i < n && log[..n][i] == LastAt(log[..n], k, at).value;
        assert log[i] == LastAt(log, k, at).value;
      }
    }
  }

  /** The stored values of the hits, tombstones skipped. */
  function Collect(store: map<Revision, KeyValue>, hits: seq<(Key, Revision)>): seq<KeyValue>
  {
    if hits == [] then []
    else
      var r := hits[|hits| - 1].1;
      Collect(store, hits[..|hits| - 1]) + (if r in store && store[r].version != 0 then [store[r]] else [])
  }

  lemma CollectSnoc(store: map<Revision, KeyValue>, hits: seq<(Key, Revision)>, hit: (Key, Revision))
    ensures Collect(store, hits + [hit]) ==
            Collect(store, hits) + (if hit.1 in store && store[hit.1].version != 0 then [store[hit.1]] else [])
  {
    assert (hits + [hit])[..|hits|] == hits;
  }

  lemma {:induction false} CollectIsReadAll(tree: map<Key, KeyItem>, log: seq<Entry>, ks: seq<Key>, at: Revision)
    requires NoZero(log) && at != Zero
    requires forall i :: 0 <= i < |ks| ==> ks[i] in tree && ItemOk(tree[ks[i]]) && RevsIn(tree, ks[i]) == KeyRevs(log, ks[i])
    ensures Collect(StoreOf(log), Hits(tree, ks, at)) == StoreReadAll(log, ks, at)
  {
    hide Collect, StoreReadAt, StoreOf, KeyRevs, ItemOk, Hits, NoZero;
    if ks == [] {
      NothingCollected(tree, StoreOf(log), at);
    } else {
      var n := |ks| - 1;
      CollectIsReadAll(tree, log, ks[..n], at);
      LookupKey(tree, log, ks[n], at);
      assert ks == ks[..n] + [ks[n]];
      HitsSnoc(tree, ks[..n], ks[n], at);
      var hits, kvs := Hits(tree, ks[..n], at), StoreReadAll(log, ks[..n], at);
      CollectSnoc(StoreOf(log), hits, (ks[n], RevAt(tree, ks[n], at)));
      assert hits + [] == hits && kvs + [] == kvs;
    }
  }

  lemma NothingCollected(tree: map<Key, KeyItem>, store: map<Revision, KeyValue>, at: Revision)
    ensures Collect(store, Hits(tree, [], at)) == []
  {
  }

  lemma {:induction false} CollectPrefix(store: map<Revision, KeyValue>, hits: seq<(Key, Revision)>, i: nat)
    requires i <= |hits|
    ensures Collect(store, hits[..i]) <= Collect(store, hits)
  {
    if i == |hits| {
      assert hits[..i] == hits;
    } else {
      CollectPrefix(store, hits[..|hits| - 1], i);
      assert hits[..|hits| - 1][..i] == hits[..i];
    }
  }

  method CollectUpTo(store: map<Revision, KeyValue>, hits: seq<(Key, Revision)>, limit: int) returns (kvs: seq<KeyValue>)
    ensures kvs == Cut(Collect(store, hits), limit)
  {
    kvs := [];
    var i := 0;
    while i < |hits|
      invariant 0 <= i <= |hits| && kvs == Collect(store, hits[..i])
      invariant limit > 0 ==> |kvs| <= limit
    {
      if limit > 0 && |kvs| >= limit {
        CollectPrefix(store, hits, i);
        return;
      }
      assert hits[..i + 1][..i] == hits[..i];
      var r := hits[i].1;
      if r in store {
        if store[r].version != 0 {
          kvs := kvs + [store[r]];
        }
      }
      i := i + 1;
    }
    assert hits[..i] == hits;
  }

  // ---------------------------------------------------------------- compaction

  lemma {:induction false} KeepFromRetained(log: seq<Entry>, t: Revision, k: Key)
    ensures KeyRevs(Retained(log, t), k) == KeepFrom(KeyRevs(log, k), t)
  {
    if log != [] {
      var n := |log| - 1;
      KeepFromRetained(log[..n], t, k);
      if !log[n].rev.LessThan(t) {
        SnocLog(Retained(log[..n], t), log[n]);
      } else {
        assert Retained(log, t) == Retained(log[..n], t);
      }
      if log[n].kv.key == k {
        KeepFromConcat(KeyRevs(log[..n], k), [log[n].rev], t);
        assert [log[n].rev][..0] == [];
        assert KeepFrom([log[n].rev], t) == if log[n].rev.LessThan(t) then [] else [log[n].rev];
      } else {
        assert KeyRevs(log, k) == KeyRevs(log[..n], k);
      }
    }
  }

  function DropBelow(store: map<Revision, KeyValue>, t: Revision): map<Revision, KeyValue> {
    map r | r in store && !r.LessThan(t) :: store[r]
  }

  lemma {:induction false} StoreOfRetained(log: seq<Entry>, t: Revision)
    ensures StoreOf(Retained(log, t)) == DropBelow(StoreOf(log), t)
  {
    if log != [] {
      var n := |log| - 1;
      StoreOfRetained(log[..n], t);
      if log[n].rev.LessThan(t) {
        assert Retained(log, t) == Retained(log[..n], t);
      } else {
        SnocLog(Retained(log[..n], t), log[n]);
      }
    }
  }

  lemma IndexCompacted(tree: map<Key, KeyItem>, tree': map<Key, KeyItem>, log: seq<Entry>, live: map<Key, KeyValue>, t: Revision)
    requires IndexIs(tree, log, live)
    requires forall k :: RevsIn(tree', k) == KeepFrom(RevsIn(tree, k), t)
    requires forall k :: k in tree' ==> ItemOk(tree'[k]) && !tree'[k].IsDeleted()
    ensures IndexIs(tree', Retained(log, t), LiveOfLog(Retained(log, t)))
  {
    var log' := Retained(log, t);
    forall k
      ensures RevsIn(tree', k) == KeyRevs(log', k)
      ensures k in LiveOfLog(log') <==> k in tree'
    {
      KeepFromRetained(log, t, k);
      LastRevStored(log', k);
      assert RevsIn(tree, k) == KeyRevs(log, k);
    }
  }

  /** Index and store after one written event. */
  lemma StoresFollow(tree: map<Key, KeyItem>, tree': map<Key, KeyItem>, store: map<Revision, KeyValue>, m: Machine, e: Event,
                     kv: KeyValue)
    requires Stores(tree, store, m.log, m.live) && e.rev != Zero
    requires e.key in tree' && tree' == tree[e.key := tree'[e.key]]
    requires RevsIn(tree', e.key) == RevsIn(tree, e.key) + [e.rev]
    requires !tree'[e.key].IsDeleted() <==> e.write.Put?
    requires kv == NewKv(m.live, e)
    ensures Stores(tree', store[e.rev := kv], Wrote(m, [e]).log, Wrote(m, [e]).live)
  {
    IndexFollows(tree, tree', m, e);
    StoreFollows(m, e);
  }

  // ---------------------------------------------------------------- the store

  datatype TxnResult = TxnResult(succeeded: bool, revision: int, responses: seq<Response>)

  class MemoryStore {
    const keyIndex: KeyIndex
    var revisionStore: map<Revision, KeyValue>
    var current: Revision
    var compactedRev: Revision
    var closed: bool

    /** The abstract state this store represents. */
    ghost var m: Machine

    ghost predicate Represents()
      reads this, keyIndex
    {
      keyIndex.Valid() && Stores(keyIndex.tree, revisionStore, m.log, m.live)
    }

    ghost predicate Valid()
      reads this, keyIndex
    {
      Represents() && Inv(m) && current == m.cur && compactedRev == m.compacted
    }

    constructor ()
      ensures Valid() && !closed && m == Init && fresh(keyIndex)
    {
      keyIndex := new KeyIndex();
      revisionStore := map[];
      current, compactedRev, closed := Zero, Zero, false;
      m := Init;
    }

    /** Writes a value at a revision above every open key's newest one. */
    method WritePut(key: Key, value: seq<byte>, lease: int, rev: Revision)
      requires Represents() && Coherent(m.log, m.live, rev) && rev != Zero
      modifies this`revisionStore, this`m, keyIndex
      ensures Represents() && m == Wrote(old(m), [Event(rev, key, Write.Put(value, lease))])
    {
      hide Coherent, Stores, Wrote, CurrentOf;
      ghost var e, tree, store := Event(rev, key, Write.Put(value, lease)), keyIndex.tree, revisionStore;
      CurrentIsLive(tree, store, m.log, m.live, rev, key);
      var prev := CurrentOf(keyIndex.tree, revisionStore, key);
      OpenIsLive(tree, store, m.log, m.live, key);
      var createRev, version := rev.main, 1;
      if prev.Some? {
        createRev, version := prev.value.createRev, prev.value.version + 1;
      }
      var kv := KeyValue(key, value, createRev, rev.main, version, lease);
      revisionStore := revisionStore[rev := kv];
      keyIndex.Put(key, rev);
      StoresFollow(tree, keyIndex.tree, store, m, e, kv);
      m := Wrote(m, [e]);
    }

    /** Writes a tombstone at such a revision, if the key is live. */
    method WriteDelete(key: Key, rev: Revision) returns (deleted: bool)
      requires Represents() && Coherent(m.log, m.live, rev) && rev != Zero
      modifies this`revisionStore, this`m, keyIndex
      ensures deleted == (key in old(m).live)
      ensures Represents() && m == if deleted then Wrote(old(m), [Event(rev, key, Write.Delete)]) else old(m)
    {
      hide Coherent, Stores, Wrote, CurrentOf;
      ghost var e, tree, store := Event(rev, key, Write.Delete), keyIndex.tree, revisionStore;
      CurrentIsLive(tree, store, m.log, m.live, rev, key);
      var prev := CurrentOf(keyIndex.tree, revisionStore, key);
      OpenIsLive(tree, store, m.log, m.live, key);
      if prev.None? {
        return false;
      }
      var tombstone := KeyValue(key, [], prev.value.createRev, rev.main, 0, 0);
      revisionStore := revisionStore[rev := tombstone];
      var ok := keyIndex.Delete(key, rev);
      StoresFollow(tree, keyIndex.tree, store, m, e, tombstone);
      m := Wrote(m, [e]);
      return true;
    }

    /** Tombstones for the given live keys, on consecutive sub-revisions from `base`. */
    method WriteDeletes(keys: seq<Key>, base: Revision) returns (deleted: int)
      requires Represents() && Coherent(m.log, m.live, base) && 1 <= base.main
      requires Sorted(keys) && forall i :: 0 <= i < |keys| ==> keys[i] in m.live
      modifies this`revisionStore, this`m, keyIndex
      ensures Represents() && m == Wrote(old(m), DeleteEvents(keys, base)) && deleted == |keys|
    {
      hide Coherent, Wrote, Stores;
      ghost var m0, es := m, DeleteEvents(keys, base);
      AllDistinct(keys);
      NoEvents(m0);
      deleted := 0;
      var i := 0;
      while i < |keys|
        invariant 0 <= i <= |keys| && deleted == i
        invariant Represents() && m == Wrote(m0, es[..i]) && Coherent(m.log, m.live, base)
        invariant forall j :: i <= j < |keys| ==> keys[j] in m.live
      {
        var deleteRev := Revision(base.main, base.sub + i);
        CoherentWeaken(m.log, m.live, base, deleteRev);
        NextTombstone(m0, m, es, i, base);
        var ok := WriteDelete(keys[i], deleteRev);
        if ok {
          deleted := deleted + 1;
        }
        i := i + 1;
      }
      assert es[..i] == es;
    }

    method Put(key: Key, value: seq<byte>, lease: int) returns (r: Result<int>)
      requires Valid()
      modifies this, keyIndex
      ensures Valid() && closed == old(closed)
      ensures m == if closed then old(m) else Step(old(m), CPut(key, value, lease))
      ensures r == if key == [] then Err(EmptyKey) else if closed then Err(Closed) else Ok(m.cur.main)
    {
      hide Inv, Stores, Coherent, Wrote;
      if key == [] {
        EmptyStep(m, CPut(key, value, lease));
        return Err(EmptyKey);
      }
      if closed {
        return Err(Closed);
      }
      PutStep(m, key, value, lease);
      current := Revision(current.main + 1, 0);
      WritePut(key, value, lease, current);
      m := Step(old(m), CPut(key, value, lease));
      return Ok(current.main);
    }

    method Delete(key: Key) returns (r: Result<(int, int)>)
      requires Valid()
      modifies this, keyIndex
      ensures Valid() && closed == old(closed)
      ensures m == if closed then old(m) else Step(old(m), CDelete(key))
      ensures r == if key == [] then Err(EmptyKey) else if closed then Err(Closed)
                   else Ok((m.cur.main, if key in old(m).live then 1 else 0))
    {
      hide Inv, Coherent, Step, Stores;
      DeleteStep(m, key);
      OpenIsLive(keyIndex.tree, revisionStore, m.log, m.live, key);
      if key == [] {
        return Err(EmptyKey);
      }
      if closed {
        return Err(Closed);
      }
      if key !in keyIndex.tree || keyIndex.tree[key].IsDeleted() {
        return Ok((current.main, 0));
      }
      current := Revision(current.main + 1, 0);
      var deleted := WriteDelete(key, current);
      m := Step(old(m), CDelete(key));
      return Ok((current.main, if deleted then 1 else 0));
    }

    method DeleteRange(start: Key, end: Option<Key>) returns (r: Result<(int, int)>)
      requires Valid()
      modifies this, keyIndex
      ensures Valid() && closed == old(closed)
      ensures m == if closed then old(m) else Step(old(m), CDeleteRange(start, end))
      ensures r == if start == [] then Err(EmptyKey) else if closed then Err(Closed)
                   else Ok((m.cur.main, |RangeKeys(old(m).live.Keys, start, end)|))
    {
      hide Inv, Coherent, Step, Stores, RangeKeys, HitKeys, Hits, DeleteEvents;
      DeleteRangeStep(m, start, end);
      if start == [] {
        return Err(EmptyKey);
      }
      if closed {
        return Err(Closed);
      }
      var hits := keyIndex.Range(start, end, Zero);
      LiveHits(keyIndex.tree, revisionStore, m.log, m.live, start, end);
      var keys := HitKeys(hits);
      if |keys| == 0 {
        return Ok((current.main, 0));
      }
      current := Revision(current.main + 1, 0);
      var deleted := WriteDeletes(keys, current);
      if deleted > 0 && |keys| - 1 > 0 {
        current := Revision(current.main, |keys| - 1);
      }
      m := Step(old(m), CDeleteRange(start, end));
      return Ok((current.main, deleted));
    }

    /** A point read: the newest visible revision of the key in the index, then the value stored there. */
    method Get(key: Key, rev: int) returns (r: Result<KeyValue>)
      requires Valid()
      ensures key == [] ==> r == Err(EmptyKey)
      ensures key != [] && closed ==> r == Err(Closed)
      ensures !closed ==> r == StoreGet(m, key, rev)
    {
      hide Inv, Stores, StoreReadAt;
      if key == [] {
        return Err(EmptyKey);
      }
      if closed {
        return Err(Closed);
      }
      var at := if rev == 0 then current else Revision(rev, 0);
      if at.LessThan(compactedRev) {
        return Err(CompactedRevision);
      }
      if current.LessThan(at) {
        return Err(FutureRevision);
      }
      var keyRev := keyIndex.GetRevision(key, at);
      LookupStored(keyIndex.tree, revisionStore, m.log, m.live, key, at);
      if keyRev == Zero || keyRev !in revisionStore || revisionStore[keyRev].version == 0 {
        return Err(KeyNotFound);
      }
      return Ok(revisionStore[keyRev]);
    }

    /** A range read of [start, end) with an optional limit. */
    method Range(start: Key, end: Option<Key>, rev: int, limit: int) returns (r: Result<seq<KeyValue>>)
      requires Valid()
      ensures start == [] ==> r == Err(EmptyKey)
      ensures start != [] && closed ==> r == Err(Closed)
      ensures !closed ==> r == StoreRange(m, start, end, rev, limit)
    {
      hide Inv, Stores, StoreReadAll, Hits, RangeKeys, Collect;
      if start == [] {
        return Err(EmptyKey);
      }
      if closed {
        return Err(Closed);
      }
      var at := if rev == 0 then current else Revision(rev, 0);
      if at.LessThan(compactedRev) {
        return Err(CompactedRevision);
      }
      if current.LessThan(at) {
        return Err(FutureRevision);
      }
      var hits := keyIndex.Range(start, end, at);
      var kvs := CollectUpTo(revisionStore, hits, limit);
      RangeStored(keyIndex.tree, revisionStore, m, start, end, rev);
      return Ok(kvs);
    }

    /** Forgets everything below the target revision. */
    method Compact(rev: int) returns (r: Result<()>)
      requires Valid()
      modifies this, keyIndex
      ensures Valid() && closed == old(closed)
      ensures m == if closed then old(m) else Step(old(m), CCompact(rev))
      ensures r == if closed then Err(Closed)
                   else if Revision(rev, 0).AtMost(old(m).compacted) then Err(CompactedRevision)
                   else if old(m).cur.LessThan(Revision(rev, 0)) then Err(FutureRevision) else Ok(())
    {
      hide Inv, Stores, Retained, LiveOfLog;
      if closed {
        return Err(Closed);
      }
      var target := Revision(rev, 0);
      if target.AtMost(compactedRev) {
        return Err(CompactedRevision);
      }
      if current.LessThan(target) {
        return Err(FutureRevision);
      }
      CompactedInv(m, rev);
      ghost var tree, store := keyIndex.tree, revisionStore;
      var removed := keyIndex.Compact(target);
      revisionStore := DropBelow(revisionStore, target);
      compactedRev := target;
      StoresCompacted(tree, keyIndex.tree, store, m.log, m.live, target);
      m := Compacted(m, rev);
      return Ok(());
    }

    method Close() returns (r: Result<()>)
      requires Valid()
      modifies this`closed
      ensures Valid() && closed
      ensures r == if old(closed) then Err(Closed) else Ok(())
    {
      if closed {
        return Err(Closed);
      }
      closed := true;
      return Ok(());
    }

    /** Evaluates one condition of a transaction against the current values. */
    method EvaluateCondition(c: Condition) returns (b: bool)
      requires Valid()
      ensures b == Holds(m.live, c)
    {
      hide Inv, Stores, CurrentOf;
      InvCoherent(m);
      CurrentIsLive(keyIndex.tree, revisionStore, m.log, m.live, Revision(m.cur.main + 1, 0), c.key);
      var kv := CurrentOf(keyIndex.tree, revisionStore, c.key);
      match c {
        case IntCondition(_, t, cmp, n) =>
          var actual := 0;
          if kv.Some? {
            match t {
              case Version => actual := kv.value.version;
              case CreateRev => actual := kv.value.createRev;
              case ModRev => actual := kv.value.modRev;
            }
          }
          b := match cmp case IsEqual => actual == n case IsNotEqual => actual != n case IsLess => actual < n case IsGreater => actual > n;
        case ValueCondition(_, cmp, v) =>
          var actual := if kv.Some? then kv.value.value else [];
          b := match cmp case IsEqual => actual == v case IsNotEqual => actual != v
               case IsLess => Less(actual, v) case IsGreater => Less(v, actual);
      }
    }

    method EvaluateConditions(conds: seq<Condition>) returns (succeeded: bool)
      requires Valid()
      ensures succeeded <==> forall i :: 0 <= i < |conds| ==> Holds(m.live, conds[i])
    {
      hide Inv, Stores, Holds;
      succeeded := true;
      var c := 0;
      while c < |conds|
        invariant 0 <= c <= |conds|
        invariant succeeded && forall i :: 0 <= i < c ==> Holds(m.live, conds[i])
      {
        succeeded := EvaluateCondition(conds[c]);
        if !succeeded {
          return;
        }
        c := c + 1;
      }
    }

    /** Executes operation `op` of a transaction at revision `rev`. */
    method ExecuteOp(op: Op, rev: Revision) returns (resp: Response)
      requires Represents() && Coherent(m.log, m.live, rev) && 1 <= rev.main
      modifies this`revisionStore, this`m, keyIndex
      ensures Represents() && m == Wrote(old(m), OpEvents(old(m).live, op, rev))
      ensures resp == OpResponse(old(m).live, op)
    {
      hide Coherent, Stores, RangeKeys, Hits, HitKeys, DeleteEvents, PresentKvs, CurrentOf, Wrote;
      NoEvents(m);
      match op {
        case PutOp(k, v, l) =>
          WritePut(k, v, l, rev);
          return Response([], 0);
        case GetOp(k, None) =>
          CurrentIsLive(keyIndex.tree, revisionStore, m.log, m.live, rev, k);
          var kv := CurrentOf(keyIndex.tree, revisionStore, k);
          return Response(if kv.Some? then [kv.value] else [], 0);
        case GetOp(k, Some(end)) =>
          var hits := keyIndex.Range(k, Some(end), Zero);
          var kvs := CollectPresent(revisionStore, hits);
          PresentStored(keyIndex.tree, revisionStore, m.log, m.live, rev, k, Some(end));
          return Response(kvs, 0);
        case DeleteOp(k) =>
          var deleted := WriteDelete(k, rev);
          return Response([], if deleted then 1 else 0);
        case DeleteRangeOp(k, end) =>
          var hits := keyIndex.Range(k, end, Zero);
          LiveHits(keyIndex.tree, revisionStore, m.log, m.live, k, end);
          var n := WriteDeletes(HitKeys(hits), rev);
          return Response([], n);
      }
    }

    /** Commits a transaction: all conditions, then the chosen operations in order. */
    method Commit(conds: seq<Condition>, thenOps: seq<Op>, elseOps: seq<Op>) returns (r: Result<TxnResult>)
      requires Valid()
      modifies this, keyIndex
      ensures Valid() && closed == old(closed)
      ensures m == if closed then old(m) else Step(old(m), CTxn(conds, thenOps, elseOps))
      ensures closed ==> r == Err(Closed)
      ensures !closed ==>
                var ops := ChosenOps(old(m).live, CTxn(conds, thenOps, elseOps));
                r.Ok? && r.value.revision == m.cur.main
                && r.value.responses == TxnResponses(old(m).live, ops, m.cur.main, |ops|)
                && (r.value.succeeded <==> forall i :: 0 <= i < |conds| ==> Holds(old(m).live, conds[i]))
    {
      hide Inv, Coherent, Stores, Holds, TxnEvents, OpEvents, OpResponse;
      if closed {
        return Err(Closed);
      }
      var succeeded := EvaluateConditions(conds);
      var ops := if succeeded then thenOps else elseOps;
      ghost var m0 := m;
      TxnStart(m0, CTxn(conds, thenOps, elseOps));
      current := Revision(current.main + 1, 0);
      var responses := [];
      var i := 0;
      while i < |ops|
        invariant 0 <= i <= |ops| && !closed && current == Revision(m0.cur.main + 1, 0) && compactedRev == m0.compacted
        invariant Represents() && m == Wrote(m0, TxnEvents(m0.live, ops, current.main, i))
        invariant responses == TxnResponses(m0.live, ops, current.main, i)
      {
        TxnNext(m0, m, ops, i);
        var resp := ExecuteOp(ops[i], Revision(current.main, i));
        responses := responses + [resp];
        i := i + 1;
      }
      m := Step(m0, CTxn(conds, thenOps, elseOps));
      return Ok(TxnResult(succeeded, current.main, responses));
    }
  }

  lemma InvCoherent(m: Machine)
    requires Inv(m)
    ensures Coherent(m.log, m.live, Revision(m.cur.main + 1, 0))
  {
  }

  lemma LookupStored(tree: map<Key, KeyItem>, store: map<Revision, KeyValue>, log: seq<Entry>, live: map<Key, KeyValue>, k: Key, at: Revision)
    requires Stores(tree, store, log, live) && forall x :: x in tree ==> ItemOk(tree[x])
    ensures var r := if k in tree then Find(tree[k].gens, at) else Zero;
            if r == Zero then StoreReadAt(log, k, at).None?
            else r in store && StoreReadAt(log, k, at) == (if store[r].version == 0 then None else Some(store[r]))
  {
    assert RevsIn(tree, k) == KeyRevs(log, k);
    LookupKey(tree, log, k, at);
  }

  lemma TreeKeysAreLogKeys(tree: map<Key, KeyItem>, log: seq<Entry>, live: map<Key, KeyValue>)
    requires IndexIs(tree, log, live) && forall x :: x in tree ==> ItemOk(tree[x])
    ensures tree.Keys == LogKeys(log)
  {
    forall k
      ensures k in tree.Keys <==> k in LogKeys(log)
    {
      LastRevStored(log, k);
      assert RevsIn(tree, k) == KeyRevs(log, k);
    }
  }

  lemma RangeStored(tree: map<Key, KeyItem>, store: map<Revision, KeyValue>, m: Machine, start: Key, end: Option<Key>, rev: int)
    requires Stores(tree, store, m.log, m.live) && Inv(m)
    requires forall x :: x in tree ==> ItemOk(tree[x])
    ensures Collect(store, Hits(tree, RangeKeys(tree.Keys, start, end), ReadRev(m, rev))) ==
            StoreReadAll(m.log, RangeKeys(LogKeys(m.log), start, end), ReadRev(m, rev))
  {
    var at := ReadRev(m, rev);
    var ks := RangeKeys(tree.Keys, start, end);
    TreeKeysAreLogKeys(tree, m.log, m.live);
    ZeroIsEmpty(m);
    if at == Zero {
      assert ks == [];
    } else {
      forall i | 0 <= i < |ks|
        ensures ks[i] in tree && RevsIn(tree, ks[i]) == KeyRevs(m.log, ks[i])
      {
        assert ks[i] in ks;
      }
      CollectIsReadAll(tree, m.log, ks, at);
    }
  }

  lemma StoresCompacted(tree: map<Key, KeyItem>, tree': map<Key, KeyItem>, store: map<Revision, KeyValue>, log: seq<Entry>,
                        live: map<Key, KeyValue>, t: Revision)
    requires Stores(tree, store, log, live)
    requires forall k :: RevsIn(tree', k) == KeepFrom(RevsIn(tree, k), t)
    requires forall k :: k in tree' ==> ItemOk(tree'[k]) && !tree'[k].IsDeleted()
    ensures Stores(tree', DropBelow(store, t), Retained(log, t), LiveOfLog(Retained(log, t)))
  {
    IndexCompacted(tree, tree', log, live, t);
    StoreOfRetained(log, t);
    forall i | 0 <= i < |Retained(log, t)|
      ensures Retained(log, t)[i].rev != Zero
    {
      RetainedExact(log, t, Retained(log, t)[i]);
    }
  }

  lemma TxnStart(m: Machine, c: Command)
    requires Inv(m) && c.CTxn?
    ensures Wrote(m, TxnEvents(m.live, ChosenOps(m.live, c), m.cur.main + 1, 0)) == m
    ensures var ops := ChosenOps(m.live, c);
            Step(m, c) == Wrote(m, TxnEvents(m.live, ops, m.cur.main + 1, |ops|)).(cur := Revision(m.cur.main + 1, 0))
    ensures Inv(Step(m, c)) && Coherent(m.log, m.live, Revision(m.cur.main + 1, 0)) && 0 <= m.cur.main
  {
    hide LiveAfter, Entries, ChosenOps, TxnBlocks, Coherent;
    NoEvents(m);
    StepInv(m, c);
    TxnBeginsEmpty(m.live, ChosenOps(m.live, c), m.cur.main + 1);
  }

  lemma TxnBeginsEmpty(live: map<Key, KeyValue>, ops: seq<Op>, main: int)
    ensures TxnEvents(live, ops, main, 0) == []
  {
  }

  lemma TxnNext(m0: Machine, m: Machine, ops: seq<Op>, i: nat)
    requires i < |ops| && Coherent(m0.log, m0.live, Revision(m0.cur.main + 1, 0))
    requires m == Wrote(m0, TxnEvents(m0.live, ops, m0.cur.main + 1, i))
    ensures Coherent(m.log, m.live, Revision(m0.cur.main + 1, i))
    ensures Wrote(m, OpEvents(m.live, ops[i], Revision(m0.cur.main + 1, i))) ==
            Wrote(m0, TxnEvents(m0.live, ops, m0.cur.main + 1, i + 1))
    ensures m.live == LiveAfter(m0.live, TxnEvents(m0.live, ops, m0.cur.main + 1, i))
  {
    var main := m0.cur.main + 1;
    var es := TxnEvents(m0.live, ops, main, i);
    CoherentTxn(m0.log, m0.live, ops, main, i, es);
    TxnUnfold(m0.live, ops, main, i + 1, es);
    WroteConcat(m0, es, OpEvents(m.live, ops[i], Revision(main, i)));
  }

  /** The stored values of the hits that are not tombstones. */
  method CollectPresent(store: map<Revision, KeyValue>, hits: seq<(Key, Revision)>) returns (kvs: seq<KeyValue>)
    ensures kvs == Present(store, hits)
  {
    kvs := [];
    var i := 0;
    while i < |hits|
      invariant 0 <= i <= |hits| && kvs == Present(store, hits[..i])
    {
      assert hits[..i + 1][..i] == hits[..i];
      if hits[i].1 in store && store[hits[i].1].version > 0 {
        kvs := kvs + [store[hits[i].1]];
      }
      i := i + 1;
    }
    assert hits[..i] == hits;
  }

  function Present(store: map<Revision, KeyValue>, hits: seq<(Key, Revision)>): seq<KeyValue>
  {
    if hits == [] then []
    else
      var r := hits[|hits| - 1].1;
      Present(store, hits[..|hits| - 1]) + (if r in store && store[r].version > 0 then [store[r]] else [])
  }

  lemma {:induction false} PresentIsPresentKvs(store: map<Revision, KeyValue>, live: map<Key, KeyValue>, hits: seq<(Key, Revision)>)
    requires forall i :: 0 <= i < |hits| ==> hits[i].0 in live && hits[i].1 in store && store[hits[i].1] == live[hits[i].0]
    ensures Present(store, hits) == PresentKvs(live, HitKeys(hits))
  {
    if hits != [] {
      var n := |hits| - 1;
      PresentIsPresentKvs(store, live, hits[..n]);
      assert HitKeys(hits)[..n] == HitKeys(hits[..n]);
    }
  }

  lemma PresentStored(tree: map<Key, KeyItem>, store: map<Revision, KeyValue>, log: seq<Entry>, live: map<Key, KeyValue>,
                      bound: Revision, start: Key, end: Option<Key>)
    requires Stores(tree, store, log, live) && Coherent(log, live, bound)
    ensures Present(store, Hits(tree, RangeKeys(tree.Keys, start, end), Zero)) == PresentKvs(live, RangeKeys(live.Keys, start, end))
  {
    hide Stores, Coherent, Hits, InRange, Present, PresentKvs;
    var hits := Hits(tree, RangeKeys(tree.Keys, start, end), Zero);
    LiveHits(tree, store, log, live, start, end);
    HitsExact(tree, RangeKeys(tree.Keys, start, end), Zero);
    forall i | 0 <= i < |hits|
      ensures hits[i].0 in live && hits[i].1 in store && store[hits[i].1] == live[hits[i].0]
    {
      assert HitKeys(hits)[i] == hits[i].0;
      CurrentIsLive(tree, store, log, live, bound, hits[i].0);
    }
    PresentIsPresentKvs(store, live, hits);
  }

  lemma EmptyStep(m: Machine, c: Command)
    requires !c.CCompact? && CommandEvents(m.live, m.cur, c) == [] && CommandCur(m.live, m.cur, c) == m.cur
    ensures Step(m, c) == m
  {
    assert m.log + Entries(m.live, []) == m.log;
  }

  lemma NextTombstone(m0: Machine, m: Machine, es: seq<Event>, i: nat, base: Revision)
    requires i < |es| && m == Wrote(m0, es[..i]) && es[i].write.Delete? && base.AtMost(es[i].rev)
    requires Coherent(m.log, m.live, base)
    ensures Wrote(m, [es[i]]) == Wrote(m0, es[..i + 1])
    ensures Coherent(Wrote(m, [es[i]]).log, Wrote(m, [es[i]]).live, base)
    ensures Wrote(m, [es[i]]).live == m.live - {es[i].key}
  {
    WroteConcat(m0, es[..i], [es[i]]);
    assert es[..i] + [es[i]] == es[..i + 1];
    OneEvent(m, es[i]);
    CoherentEvent(m.log, m.live, es[i], base, base);
  }

  lemma PutStep(m: Machine, key: Key, value: seq<byte>, lease: int)
    requires Inv(m) && key != []
    ensures var next := Revision(m.cur.main + 1, 0);
            && Coherent(m.log, m.live, next) && next != Zero
            && Step(m, CPut(key, value, lease)) == Wrote(m, [Event(next, key, Put(value, lease))]).(cur := next)
            && Inv(Step(m, CPut(key, value, lease)))
  {
    StepInv(m, CPut(key, value, lease));
  }

  lemma DeleteStep(m: Machine, key: Key)
    requires Inv(m)
    ensures var next := Revision(m.cur.main + 1, 0);
            && Coherent(m.log, m.live, next) && next != Zero
            && Step(m, CDelete(key)) == (if key != [] && key in m.live then Wrote(m, [Event(next, key, Delete)]).(cur := next) else m)
            && Inv(Step(m, CDelete(key)))
  {
    StepInv(m, CDelete(key));
    if key == [] || key !in m.live {
      EmptyStep(m, CDelete(key));
    }
  }

  lemma DeleteRangeStep(m: Machine, start: Key, end: Option<Key>)
    requires Inv(m)
    ensures var next := Revision(m.cur.main + 1, 0);
            var keys := RangeKeys(m.live.Keys, start, end);
            && Coherent(m.log, m.live, next) && 1 <= next.main
            && Step(m, CDeleteRange(start, end)) ==
               (if start == [] || keys == [] then m
                else Wrote(m, DeleteEvents(keys, next)).(cur := Revision(next.main, |keys| - 1)))
            && Inv(Step(m, CDeleteRange(start, end)))
  {
    hide RangeKeys, Coherent, LiveAfter, Entries;
    StepInv(m, CDeleteRange(start, end));
    if start == [] || RangeKeys(m.live.Keys, start, end) == [] {
      EmptyStep(m, CDeleteRange(start, end));
    }
  }

  lemma ZeroIsEmpty(m: Machine)
    requires Inv(m)
    ensures m.log == [] || 1 <= m.cur.main
  {
    assert m.log == [] || EntryOk(m.log[0], m.cur, m.compacted);
  }

  // ---------------------------------------------------------------- agreement of index and store

  /** No revision belongs to two keys or twice to one; the index lists exactly the stored revisions;
      each stored KeyValue carries its own key and main revision. */
  ghost predicate Agrees(tree: map<Key, KeyItem>, store: map<Revision, KeyValue>) {
    && (forall k :: StrictlyAscending(RevsIn(tree, k)))
    && (forall a, b, r :: r in RevsIn(tree, a) && r in RevsIn(tree, b) ==> a == b)
    && (forall k, r :: r in RevsIn(tree, k) ==> r in store && store[r].key == k && store[r].modRev == r.main)
    && (forall r :: r in store ==> exists k :: r in RevsIn(tree, k))
  }

  lemma StoresAt(tree: map<Key, KeyItem>, store: map<Revision, KeyValue>, m: Machine, k: Key)
    requires Stores(tree, store, m.log, m.live)
    ensures RevsIn(tree, k) == KeyRevs(m.log, k) && store == StoreOf(m.log)
  {
  }

  lemma RevEntry(tree: map<Key, KeyItem>, store: map<Revision, KeyValue>, m: Machine, k: Key, r: Revision) returns (i: nat)
    requires Stores(tree, store, m.log, m.live) && LogAscends(m.log) && r in RevsIn(tree, k)
    ensures i < |m.log| && m.log[i].kv.key == k && m.log[i].rev == r && r in store && store[r] == m.log[i].kv
  {
    assert RevsIn(tree, k) == KeyRevs(m.log, k);
    KeyRevsExact(m.log, k, r);
    i :| 0 <= i < |m.log| && m.log[i].kv.key == k && m.log[i].rev == r;
    StoreOfAt(m.log, i);
  }

  /** Unique revisions make index and store agree. */
  lemma AgreementHolds(tree: map<Key, KeyItem>, store: map<Revision, KeyValue>, m: Machine)
    requires Stores(tree, store, m.log, m.live) && LogAscends(m.log) && Inv(m)
    ensures Agrees(tree, store)
  {
    hide RevsIn, KeyRevs, StoreOf, Coherent, Stores;
    forall k
      ensures StrictlyAscending(RevsIn(tree, k))
    {
      StoresAt(tree, store, m, k);
      KeyRevsAscend(m.log, k);
    }
    forall a, b, r | r in RevsIn(tree, a) && r in RevsIn(tree, b)
      ensures a == b
    {
      var i := RevEntry(tree, store, m, a, r);
      var j := RevEntry(tree, store, m, b, r);
    }
    forall k, r | r in RevsIn(tree, k)
      ensures r in store && store[r].key == k && store[r].modRev == r.main
    {
      var i := RevEntry(tree, store, m, k, r);
      assert EntryOk(m.log[i], m.cur, m.compacted);
    }
    forall r | r in store
      ensures exists k :: r in RevsIn(tree, k)
    {
      StoresAt(tree, store, m, []);
      StoreOfKeys(m.log, r);
      var i :| 0 <= i < |m.log| && m.log[i].rev == r;
      StoresAt(tree, store, m, m.log[i].kv.key);
      KeyRevsExact(m.log, m.log[i].kv.key, r);
      assert r in RevsIn(tree, m.log[i].kv.key);
    }
  }

  lemma {:induction false} KeyRevsPrefix(log: seq<Entry>, n: nat, k: Key)
    requires n <= |log|
    ensures KeyRevs(log[..n], k) <= KeyRevs(log, k)
  {
    if n == |log| {
      assert log[..n] == log;
    } else {
      KeyRevsPrefix(log[..|log| - 1], n, k);
      assert log[..|log| - 1][..n] == log[..n];
    }
  }

  lemma RepeatedRev(log: seq<Entry>, i: nat, j: nat)
    requires i < j < |log| && log[i].rev == log[j].rev && log[i].kv.key == log[j].kv.key
    ensures !StrictlyAscending(KeyRevs(log, log[i].kv.key))
  {
    var k, r, before := log[i].kv.key, log[i].rev, log[..j];
    assert before[i] == log[i];
    KeyRevsExact(before, k, r);
    var p :| 0 <= p < |KeyRevs(before, k)| && KeyRevs(before, k)[p] == r;
    assert log[..j + 1][..j] == before;
    KeyRevsPrefix(log, j + 1, k);
    assert KeyRevs(log, k)[p] == KeyRevs(log, k)[|KeyRevs(before, k)|];
  }

  /** A repeated revision makes them disagree: with StepAscends, a command keeps the agreement if and
      only if it is clean. */
  lemma ClashBreaksAgreement(tree: map<Key, KeyItem>, store: map<Revision, KeyValue>, m: Machine, i: nat, j: nat)
    requires Stores(tree, store, m.log, m.live) && i < j < |m.log| && m.log[i].rev == m.log[j].rev
    ensures !Agrees(tree, store)
  {
    hide RevsIn, KeyRevs, StoreOf, Stores;
    var a, b, r := m.log[i].kv.key, m.log[j].kv.key, m.log[i].rev;
    StoresAt(tree, store, m, a);
    StoresAt(tree, store, m, b);
    KeyRevsExact(m.log, a, r);
    KeyRevsExact(m.log, b, r);
    if a == b {
      RepeatedRev(m.log, i, j);
    }
  }
}

/** The in-memory etcd store as an object, each method refining its step on values. */
module EtcdStores {
  import opened Bytes
  import opened EtcdSpec
  import opened ShardedMaps

  datatype PutError = NoError | LeaseNotFound | LeaseExpired

  lemma KeyedAfterDrop(m: map<Key, KeyValue>, ks: set<Key>)
    requires Keyed(m)
    ensures Keyed(m - ks)
  {
  }

  /** Counting a deletion loop: the keys dropped so far, in order. */
  lemma DropNext(s: State, ks: seq<Key>, i: nat)
    requires i < |ks|
    ensures DropAll(s, ks[..i + 1]) == Drop(DropAll(s, ks[..i]), ks[i])
  {
    assert ks[..i + 1][..i] == ks[..i];
  }

  lemma {:induction false} RunOpsNext(s: State, expired: set<int>, ops: seq<Op>, i: nat)
    requires i < |ops|
    ensures var o := RunOps(s, expired, ops[..i]);
            RunOps(s, expired, ops[..i + 1]) ==
            if !o.ok then o
            else if !OpAllowed(o.state, expired, ops[i]) then o.(ok := false)
            else Outcome(OpEffect(o.state, ops[i]), true, o.responses + [OpAnswer(o.state, ops[i])])
  {
    assert ops[..i + 1][..i] == ops[..i];
  }

  lemma {:induction false} RunOpsStuck(s: State, expired: set<int>, ops: seq<Op>, i: nat)
    requires i <= |ops| && !RunOps(s, expired, ops[..i]).ok
    ensures RunOps(s, expired, ops) == RunOps(s, expired, ops[..i])
    decreases |ops| - i
  {
    if i == |ops| {
      assert ops[..i] == ops;
    } else {
      RunOpsNext(s, expired, ops, i);
      RunOpsStuck(s, expired, ops, i + 1);
    }
  }

  class MemoryEtcd {
    const kvData: ShardedMap
    var revision: int
    var leases: map<int, set<Key>>

    ghost predicate Valid()
      reads this, kvData, kvData.shards
    {
      kvData.Valid() && Keyed(kvData.contents)
    }

    ghost function View(): State
      reads this, kvData
    {
      State(kvData.contents, revision, leases)
    }

    constructor ()
      ensures Valid() && fresh(kvData) && fresh(kvData.shards) && View() == InitState
    {
      kvData := new ShardedMap();
      revision := 0;
      leases := map[];
    }

    // -------------------------------------------------------------- reading

    method RangeResponseOf(key: Key, end: Key, limit: int) returns (r: OpResponse)
      requires Valid()
      ensures r == RangeAnswer(View(), key, end, limit)
    {
      hide Less, IntervalKeys;
      var kvs: seq<KeyValue> := [];
      if end == [] {
        var kv := kvData.Get(key);
        if kv.Some? {
          kvs := [kv.value];
        }
      } else {
        kvs := kvData.Range(key, end, limit);
      }
      r := RangeResponse(Cut(kvs, limit), 0 < limit < |kvs|, |kvs|, revision);
    }

    // -------------------------------------------------------------- shared pieces

    /** Draws a revision, stores the key and attaches it to its lease. */
    method Store(key: Key, value: seq<byte>, lease: int) returns (rev: int, prev: Option<KeyValue>)
      requires Valid()
      modifies this, kvData, kvData.shards
      ensures Valid() && View() == PutDirect(old(View()), key, value, lease)
      ensures rev == revision && prev == Lookup(old(View()).kv, key)
    {
      revision := revision + 1;
      rev := revision;
      prev := kvData.Get(key);
      var kv := PutKv(prev, key, value, lease, rev);
      kvData.Set(key, kv);
      leases := Attach(leases, lease, key);
    }

    /** Removes one stored key and its lease entry, drawing no revision. */
    method Remove(key: Key)
      requires Valid()
      modifies this, kvData, kvData.shards
      ensures Valid() && View() == Drop(old(View()), key)
    {
      var prev := kvData.Get(key);
      KeyedAfterDrop(kvData.contents, {key});
      kvData.Delete(key);
      if prev.Some? {
        leases := Detach(leases, prev.value.lease, key);
      } else {
        assert kvData.contents == old(kvData.contents);
      }
    }

    method Doomed(key: Key, end: Key) returns (ks: seq<Key>, kvs: seq<KeyValue>)
      requires Valid()
      ensures ks == DoomedKeys(View().kv, key, end) && |kvs| == |ks|
      ensures forall i :: 0 <= i < |ks| ==> ks[i] in View().kv && View().kv[ks[i]] == kvs[i]
    {
      hide Less, IntervalKeys;
      DoomedPresent(kvData.contents, key, end);
      ks, kvs := [], [];
      if end == [] {
        var kv := kvData.Get(key);
        if kv.Some? {
          ks, kvs := [key], [kv.value];
        }
      } else {
        kvs := kvData.Range(key, end, 0);
        ghost var want := IntervalKeys(kvData.contents, key, end);
        var i := 0;
        while i < |kvs|
          invariant 0 <= i <= |kvs| && ks == want[..i]
        {
          ks := ks + [kvs[i].key];
          i := i + 1;
        }
      }
    }

    // -------------------------------------------------------------- the interface

    method PutWithLease(key: Key, value: seq<byte>, lease: int, expired: set<int>)
      returns (err: PutError, rev: int, prev: Option<KeyValue>)
      requires Valid()
      modifies this, kvData, kvData.shards
      ensures Valid()
      ensures err == NoError <==> LeaseUsable(old(View()), expired, lease)
      ensures err == LeaseNotFound <==> lease != 0 && lease !in old(View()).leases
      ensures View() == if err == NoError then PutDirect(old(View()), key, value, lease) else old(View())
      ensures err == NoError ==> rev == revision && prev == Lookup(old(View()).kv, key)
    {
      if lease != 0 {
        if lease !in leases {
          return LeaseNotFound, 0, None;
        }
        if lease in expired {
          return LeaseExpired, 0, None;
        }
      }
      rev, prev := Store(key, value, lease);
      err := NoError;
    }

    method DeleteRange(key: Key, end: Key) returns (deleted: int, prevKvs: seq<KeyValue>, rev: int)
      requires Valid()
      modifies this, kvData, kvData.shards
      ensures Valid() && View() == DeleteOnce(old(View()), key, end)
      ensures DeleteResponse(deleted, prevKvs, rev) == OpAnswer(old(View()), OpDelete(key, end))
    {
      hide Less, IntervalKeys, Sorted, DoomedKeys;
      DoomedPresent(kvData.contents, key, end);
      var ks, kvs := Doomed(key, end);
      if |ks| == 0 {
        return 0, [], revision;
      }
      revision := revision + 1;
      rev := revision;
      ghost var s := old(View()).(rev := rev);
      deleted := 0;
      while deleted < |ks|
        invariant 0 <= deleted <= |ks|
        invariant Valid() && View() == DropAll(s, ks[..deleted])
      {
        DropNext(s, ks, deleted);
        Remove(ks[deleted]);
        deleted := deleted + 1;
      }
      assert ks[..deleted] == ks;
      DropAllRev(old(View()), ks, rev);
      prevKvs := kvs;
    }

    method EvaluateCompare(c: Compare) returns (b: bool)
      requires Valid()
      ensures b == Holds(View().kv, c)
    {
      hide Less;
      var kv := kvData.Get(c.key);
      var found := if kv.Some? then kv.value else KeyValue(c.key, [], 0, 0, 0, 0);
      match c.target
      case CompareVersion(v) => b := CompareInt(found.version, v, c.result);
      case CompareCreate(v) => b := CompareInt(found.createRev, v, c.result);
      case CompareMod(v) => b := CompareInt(found.modRev, v, c.result);
      case CompareValue(v) => b := CompareBytes(found.value, v, c.result);
      case CompareLease(v) => b := CompareInt(found.lease, v, c.result);
    }

    method EvaluateCompares(cs: seq<Compare>) returns (succeeded: bool)
      requires Valid()
      ensures succeeded == AllHold(View().kv, cs)
    {
      hide Holds;
      succeeded := true;
      var i := 0;
      while i < |cs|
        invariant 0 <= i <= |cs| && forall j :: 0 <= j < i ==> Holds(View().kv, cs[j])
      {
        var b := EvaluateCompare(cs[i]);
        if !b {
          return false;
        }
        i := i + 1;
      }
    }

    method ExecuteOp(op: Op, expired: set<int>) returns (ok: bool, response: OpResponse)
      requires Valid()
      modifies this, kvData, kvData.shards
      ensures Valid() && ok == OpAllowed(old(View()), expired, op)
      ensures View() == if ok then OpEffect(old(View()), op) else old(View())
      ensures ok ==> response == OpAnswer(old(View()), op)
    {
      hide DropAll, IntervalKeys, RangeAnswer, DeleteOnce, PutDirect;
      match op
      case OpRange(key, end, limit) =>
        response := RangeResponseOf(key, end, limit);
        ok := true;
      case OpPut(key, value, lease) =>
        var err, rev, prev := PutWithLease(key, value, lease, expired);
        ok, response := err == NoError, PutResponse(prev, rev);
        PutRev(old(View()), key, value, lease);
      case OpDelete(key, end) =>
        var deleted, prevKvs, rev := DeleteRange(key, end);
        ok, response := true, DeleteResponse(deleted, prevKvs, rev);
    }

    method Txn(compares: seq<Compare>, thenOps: seq<Op>, elseOps: seq<Op>, expired: set<int>) returns (r: TxnResult)
      requires Valid()
      modifies this, kvData, kvData.shards
      ensures Valid() && View() == TxnEffect(old(View()), expired, compares, thenOps, elseOps)
      ensures r == TxnAnswer(old(View()), expired, compares, thenOps, elseOps)
    {
      hide OpEffect, OpAnswer, OpAllowed, AllHold;
      var succeeded := EvaluateCompares(compares);
      var ops := if succeeded then thenOps else elseOps;
      ghost var s := old(View());
      var responses: seq<OpResponse> := [];
      var i := 0;
      while i < |ops|
        invariant 0 <= i <= |ops| && Valid()
        invariant RunOps(s, expired, ops[..i]) == Outcome(View(), true, responses)
      {
        RunOpsNext(s, expired, ops, i);
        var ok, response := ExecuteOp(ops[i], expired);
        if !ok {
          RunOpsStuck(s, expired, ops, i + 1);
          return TxnError;
        }
        responses := responses + [response];
        i := i + 1;
      }
      assert ops[..i] == ops;
      r := TxnOk(succeeded, responses, revision);
    }

    method LeaseGrant(id: int) returns (ok: bool)
      requires Valid()
      modifies this
      ensures Valid() && ok == (id !in old(View()).leases)
      ensures View() == if ok then GrantDirect(old(View()), id) else old(View())
    {
      if id in leases {
        return false;
      }
      leases := leases[id := {}];
      ok := true;
    }

    method LeaseRevoke(id: int) returns (ok: bool)
      requires Valid()
      modifies this, kvData, kvData.shards
      ensures Valid() && ok == (id in old(View()).leases)
      ensures View() == RevokeLease(old(View()), id)
    {
      hide Keyed, LeasedKeys, Stored;
      if id !in leases {
        return false;
      }
      var todo := leases[id];
      ghost var done: set<Key> := {};
      StoredNone(kvData.contents);
      assert kvData.contents - done == kvData.contents;
      while todo != {}
        invariant todo <= old(leases)[id] && done !! todo
        invariant todo + done == old(leases)[id]
        invariant Valid() && leases == old(leases)
        invariant kvData.contents == old(kvData.contents) - done
        invariant revision == old(revision) + |Stored(old(kvData.contents), done)|
        decreases |todo|
      {
        var key :| key in todo;
        StoredNext(old(kvData.contents), done, key);
        MinusNext(old(kvData.contents), done, key);
        var kv := kvData.Get(key);
        if kv.Some? {
          revision := revision + 1;
          KeyedAfterDrop(kvData.contents, {key});
          kvData.Delete(key);
        }
        todo, done := todo - {key}, done + {key};
      }
      assert done == old(leases)[id];
      StoredCount(old(View()), id);
      leases := leases - {id};
      ok := true;
    }

    // -------------------------------------------------------------- the replicated path

    method DeleteDirectly(key: Key, end: Key)
      requires Valid()
      modifies this, kvData, kvData.shards
      ensures Valid() && View() == DeleteDirect(old(View()), key, end)
    {
      hide Less, IntervalKeys, Sorted, DoomedKeys, Drop;
      DoomedPresent(kvData.contents, key, end);
      var ks, _ := Doomed(key, end);
      var i := 0;
      ghost var s := old(View());
      while i < |ks|
        invariant 0 <= i <= |ks| && Valid()
        invariant View() == DropAll(s, ks[..i]).(rev := s.rev + i)
      {
        DropNext(s, ks, i);
        DropRev(DropAll(s, ks[..i]), ks[i], s.rev + i + 1);
        revision := revision + 1;
        Remove(ks[i]);
        i := i + 1;
      }
      assert ks[..i] == ks;
    }

    method GrantDirectly(id: int)
      requires Valid()
      modifies this
      ensures Valid() && View() == GrantDirect(old(View()), id)
    {
      leases := leases[id := {}];
    }

    method RevokeDirectly(id: int)
      requires Valid()
      modifies this, kvData, kvData.shards
      ensures Valid() && View() == RevokeDirect(old(View()), id)
    {
      hide DropAll, IsDropped, Drop, DeleteDirect, LeasedKeys, Keyed, DroppedFrom;
      if id !in leases {
        return;
      }
      var todo := leases[id];
      ghost var keys := todo;
      leases := leases - {id};
      ghost var s := View();
      ghost var done: set<Key> := {};
      DroppedNone(s);
      assert Stored(s.kv, done) == {};
      while todo != {}
        invariant todo <= keys && done !! todo && todo + done == keys && Valid()
        invariant IsDropped(s, done, View().(rev := s.rev))
        invariant revision == s.rev + |Stored(s.kv, done)|
        decreases |todo|
      {
        var key :| key in todo;
        StoredNext(s.kv, done, key);
        DropStep(s, done, View().(rev := s.rev), key);
        DeleteOneKey(View(), key);
        DropRev(View(), key, s.rev);
        DroppedLookup(s, done, View().(rev := s.rev), key);
        DeleteDirectly(key, []);
        todo, done := todo - {key}, done + {key};
      }
      assert done == keys;
      RevokeMeets(old(View()), id, s, View());
    }
  }

  /** The keys among ks that m stores. */
  ghost function Stored(m: map<Key, KeyValue>, ks: set<Key>): set<Key> {
    set k | k in ks && k in m
  }

  lemma StoredNone(m: map<Key, KeyValue>)
    ensures Stored(m, {}) == {}
  {
  }

  lemma MinusNext(m: map<Key, KeyValue>, ks: set<Key>, k: Key)
    ensures m - ks - {k} == m - (ks + {k})
    ensures k !in m - ks ==> m - ks == m - (ks + {k})
    ensures k !in ks ==> (k in m - ks <==> k in m)
  {
    assert m - ks - {k} == m - (ks + {k});
  }

  lemma StoredNext(m: map<Key, KeyValue>, ks: set<Key>, k: Key)
    requires k !in ks
    ensures |Stored(m, ks + {k})| == |Stored(m, ks)| + (if k in m then 1 else 0)
  {
    if k in m {
      assert Stored(m, ks + {k}) == Stored(m, ks) + {k};
    } else {
      assert Stored(m, ks + {k}) == Stored(m, ks);
    }
  }

  lemma StoredCount(s: State, id: int)
    requires id in s.leases
    ensures |LeasedKeys(s, id)| == |Stored(s.kv, s.leases[id])|
    ensures KeySet(LeasedKeys(s, id)) == Stored(s.kv, s.leases[id])
  {
    var ks := Stored(s.kv, s.leases[id]);
    assert LeasedKeys(s, id) == Ascending(ks);
    AscendingSize(ks);
  }

  lemma PutRev(s: State, key: Key, value: seq<byte>, lease: int)
    ensures PutDirect(s, key, value, lease).rev == s.rev + 1
  {
  }

  lemma DropRev(s: State, key: Key, rev: int)
    ensures Drop(s.(rev := rev), key) == Drop(s, key).(rev := rev)
  {
  }

  lemma {:induction false} DropAllRev(s: State, ks: seq<Key>, rev: int)
    ensures DropAll(s.(rev := rev), ks) == DropAll(s, ks).(rev := rev)
  {
    if ks != [] {
      DropAllRev(s, ks[..|ks| - 1], rev);
    }
  }

  lemma DroppedLookup(s: State, ks: set<Key>, t: State, key: Key)
    requires IsDropped(s, ks, t) && key !in ks
    ensures key in t.kv <==> key in s.kv
  {
  }

  /** Dropping the keys of a revoked lease in any order meets RevokeDirect. */
  lemma RevokeMeets(s0: State, id: int, s: State, t: State)
    requires id in s0.leases && s == s0.(leases := s0.leases - {id})
    requires IsDropped(s, s0.leases[id], t.(rev := s.rev))
    requires t.rev == s.rev + |Stored(s.kv, s0.leases[id])|
    ensures t == RevokeDirect(s0, id)
  {
    hide IsDropped, DropAll;
    StoredCount(s0, id);
    var ks := LeasedKeys(s0, id);
    DropAllExact(s, ks);
    DroppedPresent(s, s0.leases[id], t.(rev := s.rev));
    assert (set k | k in s0.leases[id] && k in s.kv) == KeySet(ks);
    DroppedUnique(s, KeySet(ks), t.(rev := s.rev), DropAll(s, ks));
    assert t == DropAll(s, ks).(rev := s0.rev + |ks|);
  }

  // ---------------------------------------------------------------- what a range answer says of the rest

  /** How many keys a query covers: the one key, or all of the interval. */
  function CoveredCount(s: State, key: Key, end: Key): nat {
    if end != [] then |IntervalKeys(s.kv, key, end)| else if key in s.kv then 1 else 0
  }

  /** The count is of all keys covered, and more is set exactly when some of them were not returned. */
  predicate TellsTheRest(s: State, key: Key, end: Key, r: OpResponse) {
    r.RangeResponse? && r.count == CoveredCount(s, key, end) && (r.more <==> |r.kvs| < CoveredCount(s, key, end))
  }

  /** An answer tells the rest exactly when there is none: no limit, or one that covers the interval. */
  lemma AnswerTellsExactly(s: State, key: Key, end: Key, limit: int)
    ensures TellsTheRest(s, key, end, RangeAnswer(s, key, end, limit)) <==>
            end == [] || limit <= 0 || |IntervalKeys(s.kv, key, end)| <= limit
  {
    hide IntervalKeys;
    IntervalKeysPresent(s.kv, key, end);
  }

  function AfterTwoPuts(): State { PutDirect(PutDirect(InitState, [1], [], 0), [2], [], 0) }

  lemma TwoCovered()
    ensures IntervalKeys(AfterTwoPuts().kv, [1], NoEnd) == [[1], [2]]
  {
    var m := AfterTwoPuts().kv;
    assert m.Keys == {[1], [2]};
    assert InInterval([1], [1], NoEnd) && InInterval([2], [1], NoEnd);
    AscendingUnique([[1], [2]], set k | k in m && InInterval(k, [1], NoEnd));
  }

  /** Two puts, then a range query with a limit of one: the answer counts one key and says there is no more. */
  method LimitedAnswerLooksComplete() returns (r: OpResponse)
    ensures r == RangeResponse([KeyValue([1], [], 1, 1, 1, 0)], false, 1, 2)
    ensures !TellsTheRest(AfterTwoPuts(), [1], NoEnd, r)
  {
    hide IntervalKeys;
    var store := new MemoryEtcd();
    var err1, rev1, prev1 := store.PutWithLease([1], [], 0, {});
    var err2, rev2, prev2 := store.PutWithLease([2], [], 0, {});
    r := store.RangeResponseOf([1], NoEnd, 1);
    TwoCovered();
    AnswerTellsExactly(AfterTwoPuts(), [1], NoEnd, 1);
  }
}

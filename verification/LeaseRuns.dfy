/** The lease table over runs: which leases it holds, what they refuse, and what revocation takes. */
module LeaseRuns {
  import opened Bytes
  import opened EtcdSpec
  import opened LeaseTables
  import Histories
  import BatchPool

  // ---------------------------------------------------------------- what never touches the table

  lemma DeleteKeepsTable(s: State, key: Key, end: Key)
    ensures DeleteOnce(s, key, end).leases.Keys == s.leases.Keys
    ensures DeleteDirect(s, key, end).leases.Keys == s.leases.Keys
  {
    hide DoomedKeys, DropAll;
    DropAllExact(s, DoomedKeys(s.kv, key, end));
  }

  lemma {:induction false} OpsKeepTable(s: State, expired: set<int>, ops: seq<Op>)
    ensures RunOps(s, expired, ops).state.leases.Keys == s.leases.Keys
  {
    hide DeleteOnce, OpAnswer;
    if ops != [] {
      var n := |ops| - 1;
      OpsKeepTable(s, expired, ops[..n]);
      if ops[n].OpDelete? {
        DeleteKeepsTable(RunOps(s, expired, ops[..n]).state, ops[n].key, ops[n].end);
      }
    }
  }

  // ---------------------------------------------------------------- runs of calls

  lemma CallTable(s: State, c: Call, id: int)
    ensures id in CallEffect(s, c).leases <==> c == GrantCall(id) || (id in s.leases && c != RevokeCall(id))
  {
    hide DeleteOnce, RunOps, LeasedKeys;
    match c
    case PutCall(_, _, _, _) =>
    case DeleteCall(key, end) => DeleteKeepsTable(s, key, end);
    case TxnCall(compares, thenOps, elseOps, expired) => OpsKeepTable(s, expired, Chosen(s, compares, thenOps, elseOps));
    case GrantCall(_) =>
    case RevokeCall(_) =>
  }

  /** Granted at call i and not revoked since. */
  predicate GrantedAt(cs: seq<Call>, id: int, i: int) {
    0 <= i < |cs| && cs[i] == GrantCall(id) && forall j :: i < j < |cs| ==> cs[j] != RevokeCall(id)
  }

  /** After every run of calls a lease is in the table exactly when it was granted and not revoked since. */
  lemma TableExact(cs: seq<Call>, id: int)
    ensures id in CallRun(cs).leases <==> exists i :: GrantedAt(cs, id, i)
  {
    hide CallEffect;
    var held := (k: nat) => k <= |cs| && id in CallRun(cs[..k]).leases;
    var starts := (k: nat) => k < |cs| && cs[k] == GrantCall(id);
    var ends := (k: nat) => k < |cs| && cs[k] == RevokeCall(id);
    forall k | 0 <= k < |cs|
      ensures held(k + 1) <==> starts(k) || (held(k) && !ends(k))
    {
      assert cs[..k + 1] == cs[..k] + [cs[k]];
      CallSnoc(cs[..k], cs[k]);
      CallTable(CallRun(cs[..k]), cs[k], id);
    }
    Histories.Since(|cs|, held, starts, ends);
    assert cs[..|cs|] == cs;
    assert forall j :: 0 <= j < |cs| ==> (ends(j) <==> cs[j] == RevokeCall(id));
    assert forall i :: 0 <= i < |cs| ==> (GrantedAt(cs, id, i) <==> starts(i) && forall j :: i < j < |cs| ==> !ends(j));
  }

  /** A put is accepted exactly when it names no lease, or one granted and not revoked since that has not
      expired. A refused put changes nothing, and no accepted one leaves the state as it was. */
  lemma PutAccepted(cs: seq<Call>, key: Key, value: seq<byte>, lease: int, expired: set<int>)
    ensures var s, t := CallRun(cs), CallRun(cs + [PutCall(key, value, lease, expired)]);
            t != s <==> lease == 0 || (lease !in expired && exists i :: GrantedAt(cs, lease, i))
  {
    hide CallRun, GrantedAt;
    CallSnoc(cs, PutCall(key, value, lease, expired));
    TableExact(cs, lease);
  }

  lemma NotSinceRevoked(cs: seq<Call>, id: int)
    ensures !exists i :: GrantedAt(cs + [RevokeCall(id)], id, i)
  {
    assert (cs + [RevokeCall(id)])[|cs|] == RevokeCall(id);
  }

  /** In particular none under a lease just revoked. */
  lemma RevokedRefuses(cs: seq<Call>, id: int, key: Key, value: seq<byte>, expired: set<int>)
    requires id != 0
    ensures var gone := cs + [RevokeCall(id)]; CallRun(gone + [PutCall(key, value, id, expired)]) == CallRun(gone)
  {
    hide CallRun, GrantedAt;
    var gone := cs + [RevokeCall(id)];
    NotSinceRevoked(cs, id);
    PutAccepted(gone, key, value, id, expired);
  }

  /** The stored keys of a lease go, one revision each, and with them the lease; every other entry and
      every other lease's key set stays. */
  lemma RevocationExact(s: State, id: int)
    ensures var t := RevokeLease(s, id);
            && (forall k :: k in t.kv <==> k in s.kv && !(id in s.leases && k in s.leases[id]))
            && (forall k :: k in t.kv ==> t.kv[k] == s.kv[k])
            && (forall l :: l in t.leases <==> l in s.leases && l != id)
            && (forall l :: l in t.leases ==> t.leases[l] == s.leases[l])
            && t.rev - s.rev == |s.kv| - |t.kv|
  {
    hide Less;
    if id in s.leases {
      LeasedCount(s, id);
    }
  }

  lemma LeasedCount(s: State, id: int)
    requires id in s.leases
    ensures |LeasedKeys(s, id)| == |s.kv| - |s.kv - s.leases[id]|
  {
    var gone, kept := (set k | k in s.leases[id] && k in s.kv), s.kv - s.leases[id];
    AscendingSize(gone);
    assert s.kv.Keys == kept.Keys + gone && kept.Keys !! gone;
    assert |s.kv| == |s.kv.Keys| && |kept| == |kept.Keys|;
  }

  lemma OneKeyRevoked(s: State, id: int, key: Key)
    requires s.kv.Keys == {key} && s.leases == map[id := {key}]
    ensures RevokeLease(s, id) == State(map[], s.rev + 1, map[])
  {
    hide RevokeLease;
    RevocationExact(s, id);
    var t := RevokeLease(s, id);
    assert forall l :: l in t.leases ==> l == id;
    assert t.kv.Keys == {} && t.leases.Keys == {};
    assert |s.kv| == |s.kv.Keys|;
  }

  lemma PutUnderLease(s: State, id: int, key: Key, value: seq<byte>)
    requires id != 0 && s == State(map[], 0, map[id := {}])
    ensures var t := PutDirect(s, key, value, id); t.kv.Keys == {key} && t.rev == 1 && t.leases == map[id := {key}]
  {
    assert s.leases[id] + {key} == {key};
  }

  /** Grant, put, revoke, put again: the second put is refused, and a new grant starts with no keys. */
  lemma RevokedThenGranted(id: int, key: Key, value: seq<byte>)
    requires id != 0
    ensures var g, p := GrantCall(id), PutCall(key, value, id, {});
            && CallRun([g] + [p]).kv.Keys == {key}
            && CallRun([g] + [p] + [RevokeCall(id)]) == State(map[], 2, map[])
            && CallRun([g] + [p] + [RevokeCall(id)] + [p]) == State(map[], 2, map[])
            && CallRun([g] + [p] + [RevokeCall(id)] + [g]) == State(map[], 2, map[id := {}])
  {
    hide CallRun, RevokeLease, PutDirect;
    var g, p := GrantCall(id), PutCall(key, value, id, {});
    var none := NoCalls();
    CallSnoc(none, g);
    assert none + [g] == [g];
    PutUnderLease(CallRun([g]), id, key, value);
    CallSnoc([g], p);
    CallSnoc([g] + [p], RevokeCall(id));
    OneKeyRevoked(CallRun([g] + [p]), id, key);
    CallSnoc([g] + [p] + [RevokeCall(id)], p);
    CallSnoc([g] + [p] + [RevokeCall(id)], g);
  }

  // ---------------------------------------------------------------- runs of committed operations

  lemma ApplyTable(s: State, op: BatchPool.RaftOp, id: int)
    ensures id in BatchPool.Apply(s, op).leases <==>
            op == BatchPool.LeaseGrant(id) || (id in s.leases && op != BatchPool.LeaseRevoke(id))
  {
    hide DeleteDirect, RunOps, LeasedKeys, DropAll;
    match op
    case Put(_, _, _) =>
    case Delete(key, end) => DeleteKeepsTable(s, key, end);
    case Txn(compares, thenOps, elseOps, expired) => OpsKeepTable(s, expired, Chosen(s, compares, thenOps, elseOps));
    case LeaseGrant(_) =>
    case LeaseRevoke(x) =>
      if x in s.leases {
        DropAllExact(s.(leases := s.leases - {x}), LeasedKeys(s, x));
      }
    case Unknown(_) =>
  }

  predicate CommittedAt(ops: seq<BatchPool.RaftOp>, id: int, i: int) {
    0 <= i < |ops| && ops[i] == BatchPool.LeaseGrant(id) && forall j :: i < j < |ops| ==> ops[j] != BatchPool.LeaseRevoke(id)
  }

  /** The same table over every list of committed operations. */
  lemma CommittedTableExact(ops: seq<BatchPool.RaftOp>, id: int)
    ensures id in BatchPool.ApplyAll(InitState, ops).leases <==> exists i :: CommittedAt(ops, id, i)
  {
    hide BatchPool.Apply;
    var held := (k: nat) => k <= |ops| && id in BatchPool.ApplyAll(InitState, ops[..k]).leases;
    var starts := (k: nat) => k < |ops| && ops[k] == BatchPool.LeaseGrant(id);
    var ends := (k: nat) => k < |ops| && ops[k] == BatchPool.LeaseRevoke(id);
    forall k | 0 <= k < |ops|
      ensures held(k + 1) <==> starts(k) || (held(k) && !ends(k))
    {
      assert ops[..k + 1] == ops[..k] + [ops[k]];
      BatchPool.ApplySnoc(InitState, ops[..k], ops[k]);
      ApplyTable(BatchPool.ApplyAll(InitState, ops[..k]), ops[k], id);
    }
    Histories.Since(|ops|, held, starts, ends);
    assert ops[..|ops|] == ops;
    assert forall j :: 0 <= j < |ops| ==> (ends(j) <==> ops[j] == BatchPool.LeaseRevoke(id));
    assert forall i :: 0 <= i < |ops| ==> (CommittedAt(ops, id, i) <==> starts(i) && forall j :: i < j < |ops| ==> !ends(j));
  }

  /** A committed revocation removes the same entries at the same revisions; it also takes each removed
      key out of the set of the lease its entry names. A committed grant empties the lease it names. */
  lemma CommittedLeases(s: State, id: int)
    ensures var t, u := RevokeLease(s, id), RevokeDirect(s, id);
            && u.kv == t.kv && u.rev == t.rev && u.leases.Keys == t.leases.Keys
            && (forall l, k :: l in t.leases ==>
                  (k in u.leases[l] <==> k in t.leases[l] && !(k in s.kv && k !in t.kv && l != 0 && s.kv[k].lease == l)))
    ensures GrantDirect(s, id) == State(s.kv, s.rev, s.leases[id := {}])
  {
    if id in s.leases {
      var ks, gone := LeasedKeys(s, id), (set k | k in s.leases[id] && k in s.kv);
      var bare := s.(leases := s.leases - {id});
      AscendingSize(gone);
      DropAllExact(bare, ks);
      var u := DropAll(bare, ks);
      assert s.kv - s.leases[id] == s.kv - gone;
      forall l, k | l in bare.leases
        ensures k in u.leases[l] <==> k in s.leases[l] && !(k in s.kv && k in gone && l != 0 && s.kv[k].lease == l)
      {
        assert k in u.leases[l] <==> k in bare.leases[l] && !DroppedFrom(bare, gone, l, k);
      }
    }
  }
}

/** Leases and the keys attached to them, over runs of calls and of committed operations. */
module LeaseTables {
  import opened Bytes
  import opened EtcdSpec
  import opened BatchPool

  /** A stored key that names a lease is in that lease's key set. */
  ghost predicate Attached(s: State) {
    forall k :: k in s.kv && s.kv[k].lease != 0 ==>
      s.kv[k].lease in s.leases && k in s.leases[s.kv[k].lease]
  }

  /** And every key set lists only stored keys that name its lease. */
  ghost predicate Exact(s: State) {
    forall l, k :: Lists(s, l, k) ==> Names(s, l, k)
  }

  predicate Lists(s: State, l: int, k: Key) {
    l in s.leases && k in s.leases[l]
  }

  predicate Names(s: State, l: int, k: Key) {
    l != 0 && k in s.kv && s.kv[k].lease == l
  }

  ghost predicate Tidy(s: State) {
    Attached(s) && Exact(s)
  }

  // ---------------------------------------------------------------- calls on the store

  datatype Call =
    | PutCall(key: Key, value: seq<byte>, lease: int, expired: set<int>)
    | DeleteCall(key: Key, end: Key)
    | TxnCall(compares: seq<Compare>, thenOps: seq<Op>, elseOps: seq<Op>, expired: set<int>)
    | GrantCall(id: int)
    | RevokeCall(id: int)

  function CallEffect(s: State, c: Call): State {
    match c
    case PutCall(key, value, lease, expired) =>
      if LeaseUsable(s, expired, lease) then PutDirect(s, key, value, lease) else s
    case DeleteCall(key, end) => DeleteOnce(s, key, end)
    case TxnCall(compares, thenOps, elseOps, expired) => TxnEffect(s, expired, compares, thenOps, elseOps)
    case GrantCall(id) => if id in s.leases then s else GrantDirect(s, id)
    case RevokeCall(id) => RevokeLease(s, id)
  }

  function CallRun(cs: seq<Call>): State {
    if cs == [] then InitState else CallEffect(CallRun(cs[..|cs| - 1]), cs[|cs| - 1])
  }

  // ---------------------------------------------------------------- attachment survives

  /** Puts keep attachment exactly when the lease is absent from the put or present in the table. */
  lemma PutAttached(s: State, key: Key, value: seq<byte>, lease: int)
    requires Attached(s)
    ensures Attached(PutDirect(s, key, value, lease)) <==> lease == 0 || lease in s.leases
  {
    var t := PutDirect(s, key, value, lease);
    assert key in t.kv && t.kv[key].lease == lease;
    if lease == 0 || lease in s.leases {
      forall k | k in t.kv && t.kv[k].lease != 0
        ensures t.kv[k].lease in t.leases && k in t.leases[t.kv[k].lease]
      {
        if k != key {
          assert s.kv[k].lease in s.leases && k in s.leases[s.kv[k].lease];
        }
      }
    }
  }

  lemma DroppedAttached(s: State, ks: set<Key>, t: State)
    requires Attached(s) && IsDropped(s, ks, t)
    ensures Attached(t)
  {
    forall k | k in t.kv && t.kv[k].lease != 0
      ensures t.kv[k].lease in t.leases && k in t.leases[t.kv[k].lease]
    {
      var l := s.kv[k].lease;
      assert k in s.kv && l in s.leases && k in s.leases[l];
      assert k in t.leases[l] <==> k in s.leases[l] && !DroppedFrom(s, ks, l, k);
    }
  }

  lemma DropAllAttached(s: State, ks: seq<Key>, r: int)
    requires Attached(s)
    ensures Attached(DropAll(s, ks).(rev := r))
  {
    hide IsDropped;
    DropAllExact(s, ks);
    DroppedAttached(s, KeySet(ks), DropAll(s, ks));
  }

  lemma DeleteOnceAttached(s: State, key: Key, end: Key)
    requires Attached(s)
    ensures Attached(DeleteOnce(s, key, end))
  {
    hide Attached, DropAll, DoomedKeys;
    DropAllAttached(s, DoomedKeys(s.kv, key, end), s.rev + 1);
  }

  lemma {:induction false} RunOpsAttached(s: State, expired: set<int>, ops: seq<Op>)
    requires Attached(s)
    ensures Attached(RunOps(s, expired, ops).state)
  {
    hide Attached, PutDirect, DeleteOnce, OpAnswer;
    if ops != [] {
      var n := |ops| - 1;
      RunOpsAttached(s, expired, ops[..n]);
      var t := RunOps(s, expired, ops[..n]).state;
      match ops[n]
      case OpRange(_, _, _) =>
      case OpPut(key, value, lease) => PutAttached(t, key, value, lease);
      case OpDelete(key, end) => DeleteOnceAttached(t, key, end);
    }
  }

  lemma RevokeLeaseAttached(s: State, id: int)
    requires Attached(s)
    ensures Attached(RevokeLease(s, id))
  {
    if id in s.leases {
      var t := RevokeLease(s, id);
      forall k | k in t.kv && t.kv[k].lease != 0
        ensures t.kv[k].lease in t.leases && k in t.leases[t.kv[k].lease]
      {
        assert k in s.kv && s.kv[k].lease in s.leases && k in s.leases[s.kv[k].lease];
      }
    }
  }

  /** Every call keeps attachment. */
  lemma CallAttached(s: State, c: Call)
    requires Attached(s)
    ensures Attached(CallEffect(s, c))
  {
    hide PutDirect, DeleteOnce, RunOps, RevokeLease;
    match c
    case PutCall(key, value, lease, expired) => PutAttached(s, key, value, lease);
    case DeleteCall(key, end) => DeleteOnceAttached(s, key, end);
    case TxnCall(compares, thenOps, elseOps, expired) =>
      RunOpsAttached(s, expired, Chosen(s, compares, thenOps, elseOps));
    case GrantCall(id) =>
    case RevokeCall(id) => RevokeLeaseAttached(s, id);
  }

  lemma {:induction false} CallRunAttached(cs: seq<Call>)
    ensures Attached(CallRun(cs))
  {
    if cs != [] {
      CallRunAttached(cs[..|cs| - 1]);
      CallAttached(CallRun(cs[..|cs| - 1]), cs[|cs| - 1]);
    }
  }

  /** After any run, revoking a lease leaves no key that names it. */
  lemma RevokedLeaseGone(cs: seq<Call>, id: int)
    requires id != 0
    ensures forall k :: k in RevokeLease(CallRun(cs), id).kv ==> RevokeLease(CallRun(cs), id).kv[k].lease != id
  {
    hide CallRun, LeasedKeys;
    CallRunAttached(cs);
    var s := CallRun(cs);
    forall k | k in RevokeLease(s, id).kv
      ensures RevokeLease(s, id).kv[k].lease != id
    {
      assert k in s.kv;
    }
  }

  // ---------------------------------------------------------------- what a revocation removes

  /** Revoking id removes exactly the keys that name it. */
  ghost predicate RemovesExactly(s: State, id: int) {
    forall k :: k in s.kv ==> (k !in RevokeLease(s, id).kv <==> s.kv[k].lease == id)
  }

  /** The put takes a key off one lease and onto another, or onto none. */
  predicate Moves(s: State, key: Key, lease: int) {
    key in s.kv && s.kv[key].lease != 0 && s.kv[key].lease != lease
  }

  lemma TidyRemovesExactly(s: State, id: int)
    requires Tidy(s) && id in s.leases && id != 0
    ensures RemovesExactly(s, id)
  {
    forall k | k in s.kv
      ensures k in s.leases[id] <==> s.kv[k].lease == id
    {
      assert Lists(s, id, k) ==> Names(s, id, k);
    }
  }

  /** A usable put keeps the table tidy exactly when it does not move a key off another lease. */
  lemma PutTidy(s: State, key: Key, value: seq<byte>, lease: int)
    requires Tidy(s) && (lease == 0 || lease in s.leases)
    ensures Tidy(PutDirect(s, key, value, lease)) <==> !Moves(s, key, lease)
  {
    PutAttached(s, key, value, lease);
    var t := PutDirect(s, key, value, lease);
    assert key in t.kv && t.kv[key].lease == lease;
    if Moves(s, key, lease) {
      var l := s.kv[key].lease;
      assert Lists(t, l, key) && !Names(t, l, key);
    } else {
      forall l, k | Lists(t, l, k)
        ensures Names(t, l, k)
      {
        if Lists(s, l, k) {
          assert Names(s, l, k);
        }
      }
    }
  }

  /** The key a moving put touched is lost when its former lease is revoked. */
  lemma MovedKeyLost(s: State, key: Key, value: seq<byte>, lease: int)
    requires Tidy(s) && (lease == 0 || lease in s.leases) && Moves(s, key, lease)
    ensures var t := PutDirect(s, key, value, lease);
            var former := s.kv[key].lease;
            && t.kv[key].lease == lease != former
            && former in t.leases && key !in RevokeLease(t, former).kv
  {
  }

  lemma CallSnoc(cs: seq<Call>, c: Call)
    ensures CallRun(cs + [c]) == CallEffect(CallRun(cs), c)
  {
    assert (cs + [c])[..|cs|] == cs;
  }

  const KeyA: Key := [97]

  /** Grant two leases, put a key under the first and again under the second: revoking the first deletes it. */
  lemma RevocationTakesMovedKey() returns (cs: seq<Call>)
    ensures 1 in CallRun(cs).leases && KeyA in CallRun(cs).kv && CallRun(cs).kv[KeyA].lease == 2
    ensures KeyA !in RevokeLease(CallRun(cs), 1).kv
  {
    hide CallRun;
    cs := NoCalls();
    CallSnoc(cs, GrantCall(1));
    cs := cs + [GrantCall(1)];
    CallSnoc(cs, GrantCall(2));
    cs := cs + [GrantCall(2)];
    CallSnoc(cs, PutCall(KeyA, [], 1, {}));
    cs := cs + [PutCall(KeyA, [], 1, {})];
    assert KeyA in CallRun(cs).leases[1];
    CallSnoc(cs, PutCall(KeyA, [], 2, {}));
    cs := cs + [PutCall(KeyA, [], 2, {})];
    assert KeyA in CallRun(cs).leases[1];
  }

  lemma NoCalls() returns (cs: seq<Call>)
    ensures cs == [] && CallRun(cs) == InitState
  {
    cs := [];
  }

  lemma DroppedTidy(s: State, ks: set<Key>, t: State)
    requires Tidy(s) && IsDropped(s, ks, t)
    ensures Tidy(t)
  {
    DroppedAttached(s, ks, t);
    forall l, k | Lists(t, l, k)
      ensures Names(t, l, k)
    {
      assert k in t.leases[l] <==> k in s.leases[l] && !DroppedFrom(s, ks, l, k);
      assert Lists(s, l, k);
    }
  }

  lemma DropAllTidy(s: State, ks: seq<Key>, r: int)
    requires Tidy(s)
    ensures Tidy(DropAll(s, ks).(rev := r))
  {
    hide IsDropped, Tidy;
    DropAllExact(s, ks);
    DroppedTidy(s, KeySet(ks), DropAll(s, ks));
    TidyAtRev(DropAll(s, ks), r);
  }

  lemma TidyAtRev(s: State, r: int)
    requires Tidy(s)
    ensures Tidy(s.(rev := r))
  {
    var t := s.(rev := r);
    forall l, k | Lists(t, l, k)
      ensures Names(t, l, k)
    {
      assert Lists(s, l, k);
    }
  }

  lemma DeleteOnceTidy(s: State, key: Key, end: Key)
    requires Tidy(s)
    ensures Tidy(DeleteOnce(s, key, end))
  {
    hide Tidy, DropAll, DoomedKeys;
    DropAllTidy(s, DoomedKeys(s.kv, key, end), s.rev + 1);
  }

  lemma RevokeTidy(s: State, id: int)
    requires Tidy(s)
    ensures Tidy(RevokeLease(s, id))
  {
    RevokeLeaseAttached(s, id);
    if id in s.leases {
      var t := RevokeLease(s, id);
      forall l, k | Lists(t, l, k)
        ensures Names(t, l, k)
      {
        assert Lists(s, l, k);
        assert Lists(s, id, k) ==> Names(s, id, k);
      }
    }
  }

  predicate OpStays(s: State, op: Op) {
    op.OpPut? ==> !Moves(s, op.key, op.lease)
  }

  /** No put among the operations, as far as they run, moves a key. */
  predicate OpsStay(s: State, expired: set<int>, ops: seq<Op>) {
    ops == [] ||
    (&& OpsStay(s, expired, ops[..|ops| - 1])
     && OpStays(RunOps(s, expired, ops[..|ops| - 1]).state, ops[|ops| - 1]))
  }

  lemma {:induction false} RunOpsTidy(s: State, expired: set<int>, ops: seq<Op>)
    requires Tidy(s) && OpsStay(s, expired, ops)
    ensures Tidy(RunOps(s, expired, ops).state)
  {
    hide Tidy, PutDirect, DeleteOnce, OpAnswer, Moves;
    if ops != [] {
      var n := |ops| - 1;
      RunOpsTidy(s, expired, ops[..n]);
      var t := RunOps(s, expired, ops[..n]).state;
      match ops[n]
      case OpRange(_, _, _) =>
      case OpPut(key, value, lease) =>
        if LeaseUsable(t, expired, lease) {
          PutTidy(t, key, value, lease);
        }
      case OpDelete(key, end) => DeleteOnceTidy(t, key, end);
    }
  }

  predicate CallStays(s: State, c: Call) {
    match c
    case PutCall(key, _, lease, expired) => !Moves(s, key, lease)
    case TxnCall(compares, thenOps, elseOps, expired) =>
      OpsStay(s, expired, Chosen(s, compares, thenOps, elseOps))
    case _ => true
  }

  predicate RunStays(cs: seq<Call>) {
    cs == [] || (RunStays(cs[..|cs| - 1]) && CallStays(CallRun(cs[..|cs| - 1]), cs[|cs| - 1]))
  }

  lemma CallTidy(s: State, c: Call)
    requires Tidy(s) && CallStays(s, c)
    ensures Tidy(CallEffect(s, c))
  {
    hide PutDirect, DeleteOnce, RunOps, RevokeLease, Moves, OpsStay, Tidy;
    match c
    case PutCall(key, value, lease, expired) =>
      if LeaseUsable(s, expired, lease) {
        PutTidy(s, key, value, lease);
      }
    case DeleteCall(key, end) => DeleteOnceTidy(s, key, end);
    case TxnCall(compares, thenOps, elseOps, expired) =>
      RunOpsTidy(s, expired, Chosen(s, compares, thenOps, elseOps));
    case GrantCall(id) =>
      if id !in s.leases {
        GrantTidy(s, id);
      }
    case RevokeCall(id) => RevokeTidy(s, id);
  }

  lemma GrantTidy(s: State, id: int)
    requires Tidy(s) && id !in s.leases
    ensures Tidy(GrantDirect(s, id))
  {
    var t := GrantDirect(s, id);
    forall l, k | Lists(t, l, k)
      ensures Names(t, l, k)
    {
      assert Lists(s, l, k);
    }
  }

  /** Over every run that moves no key, each revocation removes exactly the keys of its lease. */
  lemma {:induction false} StayingRunTidy(cs: seq<Call>)
    requires RunStays(cs)
    ensures Tidy(CallRun(cs))
    ensures forall id :: id != 0 && id in CallRun(cs).leases ==> RemovesExactly(CallRun(cs), id)
  {
    hide CallStays, CallEffect, RemovesExactly;
    if cs != [] {
      StayingRunTidy(cs[..|cs| - 1]);
      CallTidy(CallRun(cs[..|cs| - 1]), cs[|cs| - 1]);
    }
    forall id | id != 0 && id in CallRun(cs).leases
      ensures RemovesExactly(CallRun(cs), id)
    {
      TidyRemovesExactly(CallRun(cs), id);
    }
  }

  // ---------------------------------------------------------------- the replicated path

  /** A committed grant keeps attachment exactly when no stored key names the lease it resets. */
  lemma GrantAttached(s: State, id: int)
    requires Attached(s)
    ensures Attached(GrantDirect(s, id)) <==> id == 0 || forall k :: k in s.kv ==> s.kv[k].lease != id
  {
    var t := GrantDirect(s, id);
    if id != 0 && exists k :: k in s.kv && s.kv[k].lease == id {
      var k :| k in s.kv && s.kv[k].lease == id;
      assert k in t.kv && t.kv[k].lease == id && k !in t.leases[id];
    }
  }

  lemma TableWithout(s: State, id: int, keys: set<Key>, t: State)
    requires Attached(s) && id in s.leases && keys == s.leases[id]
    requires IsDropped(s.(leases := s.leases - {id}), keys, t)
    ensures Attached(t)
    ensures id != 0 ==> forall k :: k in t.kv ==> t.kv[k].lease != id
  {
    var u := s.(leases := s.leases - {id});
    forall k | k in t.kv && t.kv[k].lease != 0
      ensures t.kv[k].lease in t.leases && k in t.leases[t.kv[k].lease] && t.kv[k].lease != id
    {
      var l := s.kv[k].lease;
      assert k in s.kv && l in s.leases && k in s.leases[l];
      assert l != id;
      assert l in u.leases;
      assert k in t.leases[l] <==> k in u.leases[l] && !DroppedFrom(u, keys, l, k);
    }
  }

  lemma RevokeDirectAttached(s: State, id: int)
    requires Attached(s)
    ensures Attached(RevokeDirect(s, id))
    ensures id != 0 ==> forall k :: k in RevokeDirect(s, id).kv ==> RevokeDirect(s, id).kv[k].lease != id
  {
    hide IsDropped, DropAll;
    if id in s.leases {
      var u, ks := s.(leases := s.leases - {id}), LeasedKeys(s, id);
      DropAllExact(u, ks);
      LeasedIsStored(s, id);
      DroppedMore(u, KeySet(ks), s.leases[id], DropAll(u, ks));
      TableWithout(s, id, s.leases[id], DropAll(u, ks));
    }
  }

  lemma LeasedIsStored(s: State, id: int)
    requires id in s.leases
    ensures KeySet(LeasedKeys(s, id)) == set k | k in s.leases[id] && k in s.kv
  {
    AscendingSize(set k | k in s.leases[id] && k in s.kv);
  }

  /** Dropping more keys that are not stored makes no difference. */
  lemma DroppedMore(s: State, ks: set<Key>, js: set<Key>, t: State)
    requires IsDropped(s, ks, t) && ks == set k | k in js && k in s.kv
    ensures IsDropped(s, js, t)
  {
    assert s.kv - ks == s.kv - js;
    forall l, k | l in s.leases
      ensures DroppedFrom(s, ks, l, k) <==> DroppedFrom(s, js, l, k)
    {
    }
  }

  /** What a committed operation must satisfy for attachment to survive it. */
  ghost predicate KeepsAttachment(s: State, op: RaftOp) {
    match op
    case Put(_, _, lease) => lease == 0 || lease in s.leases
    case LeaseGrant(id) => id == 0 || forall k :: k in s.kv ==> s.kv[k].lease != id
    case _ => true
  }

  /** Attachment survives a committed operation if and only if that condition holds. */
  lemma ApplyAttached(s: State, op: RaftOp)
    requires Attached(s)
    ensures Attached(Apply(s, op)) <==> KeepsAttachment(s, op)
  {
    hide Attached, PutDirect, DropAll, RunOps, RevokeDirect, GrantDirect, DoomedKeys;
    match op
    case Put(key, value, lease) => PutAttached(s, key, value, lease);
    case Delete(key, end) =>
      var ks := DoomedKeys(s.kv, key, end);
      DropAllAttached(s, ks, s.rev + |ks|);
    case Txn(compares, thenOps, elseOps, expired) =>
      RunOpsAttached(s, expired, Chosen(s, compares, thenOps, elseOps));
    case LeaseGrant(id) => GrantAttached(s, id);
    case LeaseRevoke(id) => RevokeDirectAttached(s, id);
    case Unknown(_) =>
  }

  /** A committed put that names a lease nobody granted: the key is attached to nothing. */
  lemma PutNamesMissingLease()
    ensures Attached(InitState) && !Attached(Apply(InitState, Put([1], [], 7)))
  {
    ApplyAttached(InitState, Put([1], [], 7));
  }
}

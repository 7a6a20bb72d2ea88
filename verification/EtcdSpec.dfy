/** The etcd-style store as values: one key-value map, one revision counter, one lease table. */
module EtcdSpec {
  import opened Bytes

  datatype KeyValue = KeyValue(key: Key, value: seq<byte>, createRev: int, modRev: int, version: int, lease: int)

  /** leases maps a lease ID to the set of keys attached to it. */
  datatype State = State(kv: map<Key, KeyValue>, rev: int, leases: map<int, set<Key>>)

  const InitState := State(map[], 0, map[])

  function Lookup(m: map<Key, KeyValue>, k: Key): Option<KeyValue> {
    if k in m then Some(m[k]) else None
  }

  // ---------------------------------------------------------------- ranges

  /** A range end of "\x00" means: no upper bound. */
  const NoEnd: Key := [0]

  predicate InInterval(k: Key, start: Key, end: Key) {
    Leq(start, k) && (end == NoEnd || Less(k, end))
  }

  function IntervalKeys(m: map<Key, KeyValue>, start: Key, end: Key): seq<Key> {
    Ascending(set k | k in m && InInterval(k, start, end))
  }

  function ValuesOf(m: map<Key, KeyValue>, ks: seq<Key>): (r: seq<KeyValue>)
    requires forall i :: 0 <= i < |ks| ==> ks[i] in m
    ensures |r| == |ks| && forall i :: 0 <= i < |ks| ==> r[i] == m[ks[i]]
  {
    seq(|ks|, i requires 0 <= i < |ks| => m[ks[i]])
  }

  /** The entries of the interval in ascending key order, cut to the limit. */
  function RangeOf(m: map<Key, KeyValue>, start: Key, end: Key, limit: int): seq<KeyValue>
  {
    IntervalKeysPresent(m, start, end);
    Cut(ValuesOf(m, IntervalKeys(m, start, end)), limit)
  }

  lemma IntervalKeysPresent(m: map<Key, KeyValue>, start: Key, end: Key)
    ensures forall i :: 0 <= i < |IntervalKeys(m, start, end)| ==>
              IntervalKeys(m, start, end)[i] in m && InInterval(IntervalKeys(m, start, end)[i], start, end)
    ensures Sorted(IntervalKeys(m, start, end))
  {
    var s := set k | k in m && InInterval(k, start, end);
    forall i | 0 <= i < |Ascending(s)|
      ensures Ascending(s)[i] in s
    {
      assert Ascending(s)[i] in Ascending(s);
    }
  }

  /** Every entry carries its own key. */
  predicate Keyed(m: map<Key, KeyValue>) {
    forall k :: k in m ==> m[k].key == k
  }

  // ---------------------------------------------------------------- single steps

  function PutKv(prev: Option<KeyValue>, key: Key, value: seq<byte>, lease: int, rev: int): KeyValue {
    match prev
    case Some(p) => KeyValue(key, value, p.createRev, rev, p.version + 1, lease)
    case None => KeyValue(key, value, rev, rev, 1, lease)
  }

  /** Lease 0 stands for no lease; a lease that is not in the table is passed over. */
  function Attach(leases: map<int, set<Key>>, lease: int, key: Key): map<int, set<Key>> {
    if lease != 0 && lease in leases then leases[lease := leases[lease] + {key}] else leases
  }

  function Detach(leases: map<int, set<Key>>, lease: int, key: Key): map<int, set<Key>> {
    if lease != 0 && lease in leases then leases[lease := leases[lease] - {key}] else leases
  }

  function PutDirect(s: State, key: Key, value: seq<byte>, lease: int): State {
    State(s.kv[key := PutKv(Lookup(s.kv, key), key, value, lease, s.rev + 1)], s.rev + 1,
          Attach(s.leases, lease, key))
  }

  /** Takes one key out of the map and off its lease; the counter stays. */
  function Drop(s: State, key: Key): State {
    if key in s.kv then State(s.kv - {key}, s.rev, Detach(s.leases, s.kv[key].lease, key)) else s
  }

  function DropAll(s: State, ks: seq<Key>): State {
    if ks == [] then s else Drop(DropAll(s, ks[..|ks| - 1]), ks[|ks| - 1])
  }

  /** The keys a deletion covers: one key if the range end is empty, else the interval. */
  function DoomedKeys(m: map<Key, KeyValue>, key: Key, end: Key): seq<Key> {
    if end == [] then (if key in m then [key] else []) else IntervalKeys(m, key, end)
  }

  /** Deletion on the replicated path: one revision per key removed. */
  function DeleteDirect(s: State, key: Key, end: Key): State {
    var ks := DoomedKeys(s.kv, key, end);
    DropAll(s, ks).(rev := s.rev + |ks|)
  }

  /** Deletion through the interface or inside a transaction: one revision for all keys removed. */
  function DeleteOnce(s: State, key: Key, end: Key): State {
    var ks := DoomedKeys(s.kv, key, end);
    if ks == [] then s else DropAll(s, ks).(rev := s.rev + 1)
  }

  /** The keys of a lease that are stored, in ascending order. */
  function LeasedKeys(s: State, id: int): seq<Key>
    requires id in s.leases
  {
    Ascending(set k | k in s.leases[id] && k in s.kv)
  }

  /** Granting on the replicated path replaces whatever the table held. */
  function GrantDirect(s: State, id: int): State {
    s.(leases := s.leases[id := {}])
  }

  function RevokeDirect(s: State, id: int): State {
    if id !in s.leases then s
    else
      var ks := LeasedKeys(s, id);
      DropAll(s.(leases := s.leases - {id}), ks).(rev := s.rev + |ks|)
  }

  /** Revocation through the interface leaves the key sets of the other leases as they are. */
  function RevokeLease(s: State, id: int): State {
    if id !in s.leases then s
    else State(s.kv - s.leases[id], s.rev + |LeasedKeys(s, id)|, s.leases - {id})
  }

  // ---------------------------------------------------------------- transactions

  datatype CompareResult = CompareEqual | CompareGreater | CompareLess | CompareNotEqual

  datatype Target =
    | CompareVersion(version: int)
    | CompareCreate(createRev: int)
    | CompareMod(modRev: int)
    | CompareValue(value: seq<byte>)
    | CompareLease(lease: int)

  datatype Compare = Compare(key: Key, target: Target, result: CompareResult)

  predicate CompareInt(a: int, b: int, r: CompareResult) {
    match r
    case CompareEqual => a == b
    case CompareGreater => a > b
    case CompareLess => a < b
    case CompareNotEqual => a != b
  }

  predicate CompareBytes(a: seq<byte>, b: seq<byte>, r: CompareResult) {
    match r
    case CompareEqual => a == b
    case CompareGreater => Less(b, a)
    case CompareLess => Less(a, b)
    case CompareNotEqual => a != b
  }

  /** A missing key compares as zero, or as the empty value. */
  predicate Holds(m: map<Key, KeyValue>, c: Compare) {
    var kv := if c.key in m then m[c.key] else KeyValue(c.key, [], 0, 0, 0, 0);
    match c.target
    case CompareVersion(v) => CompareInt(kv.version, v, c.result)
    case CompareCreate(v) => CompareInt(kv.createRev, v, c.result)
    case CompareMod(v) => CompareInt(kv.modRev, v, c.result)
    case CompareValue(v) => CompareBytes(kv.value, v, c.result)
    case CompareLease(v) => CompareInt(kv.lease, v, c.result)
  }

  predicate AllHold(m: map<Key, KeyValue>, cs: seq<Compare>) {
    forall i :: 0 <= i < |cs| ==> Holds(m, cs[i])
  }

  datatype Op =
    | OpRange(key: Key, end: Key, limit: int)
    | OpPut(key: Key, value: seq<byte>, lease: int)
    | OpDelete(key: Key, end: Key)

  datatype OpResponse =
    | RangeResponse(kvs: seq<KeyValue>, more: bool, count: int, rev: int)
    | PutResponse(prev: Option<KeyValue>, rev: int)
    | DeleteResponse(deleted: int, prevKvs: seq<KeyValue>, rev: int)

  /** A put may name no lease, or one in the table that has not expired. */
  predicate LeaseUsable(s: State, expired: set<int>, lease: int) {
    lease == 0 || (lease in s.leases && lease !in expired)
  }

  predicate OpAllowed(s: State, expired: set<int>, op: Op) {
    op.OpPut? ==> LeaseUsable(s, expired, op.lease)
  }

  function OpEffect(s: State, op: Op): State {
    match op
    case OpRange(_, _, _) => s
    case OpPut(key, value, lease) => PutDirect(s, key, value, lease)
    case OpDelete(key, end) => DeleteOnce(s, key, end)
  }

  function RangeAnswer(s: State, key: Key, end: Key, limit: int): OpResponse {
    var kvs := if end == [] then (if key in s.kv then [s.kv[key]] else []) else RangeOf(s.kv, key, end, limit);
    RangeResponse(kvs, false, |kvs|, s.rev)
  }

  function OpAnswer(s: State, op: Op): OpResponse {
    match op
    case OpRange(key, end, limit) => RangeAnswer(s, key, end, limit)
    case OpPut(key, _, _) => PutResponse(Lookup(s.kv, key), s.rev + 1)
    case OpDelete(key, end) =>
      DoomedPresent(s.kv, key, end);
      var ks := DoomedKeys(s.kv, key, end);
      DeleteResponse(|ks|, ValuesOf(s.kv, ks), OpEffect(s, op).rev)
  }

  lemma DoomedPresent(m: map<Key, KeyValue>, key: Key, end: Key)
    ensures forall i :: 0 <= i < |DoomedKeys(m, key, end)| ==> DoomedKeys(m, key, end)[i] in m
    ensures Sorted(DoomedKeys(m, key, end))
  {
    if end != [] {
      IntervalKeysPresent(m, key, end);
    }
  }

  /** Operations run in order; the first one that is not allowed stops the run, what came before it stays. */
  datatype Outcome = Outcome(state: State, ok: bool, responses: seq<OpResponse>)

  function RunOps(s: State, expired: set<int>, ops: seq<Op>): Outcome {
    if ops == [] then Outcome(s, true, [])
    else
      var o := RunOps(s, expired, ops[..|ops| - 1]);
      var op := ops[|ops| - 1];
      if !o.ok then o
      else if !OpAllowed(o.state, expired, op) then o.(ok := false)
      else Outcome(OpEffect(o.state, op), true, o.responses + [OpAnswer(o.state, op)])
  }

  function Chosen(s: State, compares: seq<Compare>, thenOps: seq<Op>, elseOps: seq<Op>): seq<Op> {
    if AllHold(s.kv, compares) then thenOps else elseOps
  }

  function TxnEffect(s: State, expired: set<int>, compares: seq<Compare>, thenOps: seq<Op>, elseOps: seq<Op>): State {
    RunOps(s, expired, Chosen(s, compares, thenOps, elseOps)).state
  }

  datatype TxnResult = TxnError | TxnOk(succeeded: bool, responses: seq<OpResponse>, rev: int)

  function TxnAnswer(s: State, expired: set<int>, compares: seq<Compare>, thenOps: seq<Op>, elseOps: seq<Op>): TxnResult {
    var o := RunOps(s, expired, Chosen(s, compares, thenOps, elseOps));
    if o.ok then TxnOk(AllHold(s.kv, compares), o.responses, o.state.rev) else TxnError
  }

  // ---------------------------------------------------------------- dropping keys, exactly

  /** What is left after dropping a set of keys, in any order. */
  ghost predicate IsDropped(s: State, ks: set<Key>, t: State) {
    && t.kv == s.kv - ks
    && t.rev == s.rev
    && t.leases.Keys == s.leases.Keys
    && (forall l, k :: l in s.leases ==> (k in t.leases[l] <==> k in s.leases[l] && !DroppedFrom(s, ks, l, k)))
  }

  ghost predicate DroppedFrom(s: State, ks: set<Key>, l: int, k: Key) {
    l != 0 && k in ks && k in s.kv && s.kv[k].lease == l
  }

  function KeySet(ks: seq<Key>): set<Key> {
    set k | k in ks
  }

  lemma {:induction false} AscendingSize(ks: set<Key>)
    ensures |Ascending(ks)| == |ks| && KeySet(Ascending(ks)) == ks
  {
    SortedSize(Ascending(ks));
    assert KeySet(Ascending(ks)) == ks;
  }

  lemma {:induction false} SortedSize(ks: seq<Key>)
    requires Sorted(ks)
    ensures |KeySet(ks)| == |ks|
  {
    if ks == [] {
      assert KeySet(ks) == {};
    } else {
      var n := |ks| - 1;
      SortedSize(ks[..n]);
      assert ks == ks[..n] + [ks[n]];
      assert KeySet(ks) == KeySet(ks[..n]) + {ks[n]};
      if ks[n] in ks[..n] {
        var i :| 0 <= i < n && ks[i] == ks[n];
        LessIrreflexive(ks[i]);
      }
    }
  }

  lemma DroppedNone(s: State)
    ensures IsDropped(s, {}, s)
  {
    assert s.kv - {} == s.kv;
  }

  lemma DropStep(s: State, ks: set<Key>, t: State, k: Key)
    requires IsDropped(s, ks, t)
    ensures IsDropped(s, ks + {k}, Drop(t, k))
  {
    var u := Drop(t, k);
    assert s.kv - (ks + {k}) == u.kv;
    forall l, j | l in s.leases
      ensures j in u.leases[l] <==> j in s.leases[l] && !DroppedFrom(s, ks + {k}, l, j)
    {
      assert j in t.leases[l] <==> j in s.leases[l] && !DroppedFrom(s, ks, l, j);
    }
  }

  lemma {:induction false} DropAllExact(s: State, ks: seq<Key>)
    ensures IsDropped(s, KeySet(ks), DropAll(s, ks))
  {
    if ks == [] {
      DroppedNone(s);
      assert KeySet(ks) == {};
    } else {
      var n := |ks| - 1;
      DropAllExact(s, ks[..n]);
      DropStep(s, KeySet(ks[..n]), DropAll(s, ks[..n]), ks[n]);
      assert ks == ks[..n] + [ks[n]];
      assert KeySet(ks) == KeySet(ks[..n]) + {ks[n]};
    }
  }

  lemma DroppedUnique(s: State, ks: set<Key>, t: State, u: State)
    requires IsDropped(s, ks, t) && IsDropped(s, ks, u)
    ensures t == u
  {
    forall l | l in s.leases
      ensures t.leases[l] == u.leases[l]
    {
      forall k
        ensures k in t.leases[l] <==> k in u.leases[l]
      {
        assert k in t.leases[l] <==> k in s.leases[l] && !DroppedFrom(s, ks, l, k);
      }
    }
    assert t.leases == u.leases;
  }

  lemma DeleteOneKey(s: State, key: Key)
    ensures DeleteDirect(s, key, []) == Drop(s, key).(rev := s.rev + (if key in s.kv then 1 else 0))
  {
    if key in s.kv {
      assert DropAll(s, [key]) == Drop(DropAll(s, [key][..0]), key);
    }
  }

  /** Dropping absent keys changes nothing, so only the stored ones among ks matter. */
  lemma DroppedPresent(s: State, ks: set<Key>, t: State)
    requires IsDropped(s, ks, t)
    ensures IsDropped(s, (set k | k in ks && k in s.kv), t)
  {
    var ps := set k | k in ks && k in s.kv;
    assert s.kv - ks == s.kv - ps;
    forall l, k | l in s.leases
      ensures DroppedFrom(s, ks, l, k) <==> DroppedFrom(s, ps, l, k)
    {
    }
  }
}

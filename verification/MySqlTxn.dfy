/** Transactions of the MySQL front end: buffered writes, a read set, and one store transaction at commit. */
module MySqlTxns {
  import opened Bytes
  import opened EtcdSpec
  import opened EtcdStores
  import opened LeaseTables
  import BatchPool

  datatype TxOp = TxPut(key: Key, value: seq<byte>) | TxDelete(key: Key)

  datatype Transaction = Transaction(startRev: int, operations: seq<TxOp>, readSet: map<Key, int>)

  /** A query with the answer it got. */
  datatype Asked = Asked(key: Key, end: Key, limit: int, kvs: seq<KeyValue>)

  /** The store, one connection's open transaction, and the queries it has asked. */
  datatype World = World(state: State, tx: Option<Transaction>, asked: seq<Asked>)

  /** Every entry the queries have returned. */
  function Seen(asked: seq<Asked>): seq<KeyValue> {
    if asked == [] then [] else Seen(asked[..|asked| - 1]) + asked[|asked| - 1].kvs
  }

  datatype Event =
    | Other(call: Call)
    | Replicated(committed: BatchPool.RaftOp)
    | Begin
    | Select(key: Key, end: Key, limit: int)
    | Write(op: TxOp)
    | Commit
    | Rollback

  function StoreOp(op: TxOp): Op {
    match op
    case TxPut(key, value) => OpPut(key, value, 0)
    case TxDelete(key) => OpDelete(key, [])
  }

  function StoreOps(ops: seq<TxOp>): (r: seq<Op>)
    ensures |r| == |ops| && forall i :: 0 <= i < |ops| ==> r[i] == StoreOp(ops[i])
  {
    seq(|ops|, i requires 0 <= i < |ops| => StoreOp(ops[i]))
  }

  function ReadCompare(k: Key, rev: int): Compare {
    Compare(k, CompareMod(rev), CompareEqual)
  }

  predicate ReadsHold(m: map<Key, KeyValue>, readSet: map<Key, int>) {
    forall k :: k in readSet ==> Holds(m, ReadCompare(k, readSet[k]))
  }

  function Record(readSet: map<Key, int>, kvs: seq<KeyValue>): map<Key, int> {
    if kvs == [] then readSet
    else Record(readSet, kvs[..|kvs| - 1])[kvs[|kvs| - 1].key := kvs[|kvs| - 1].modRev]
  }

  function Found(s: State, key: Key, end: Key, limit: int): seq<KeyValue> {
    RangeAnswer(s, key, end, limit).kvs
  }

  function CommitState(s: State, tx: Transaction): State {
    if ReadsHold(s.kv, tx.readSet) then RunOps(s, {}, StoreOps(tx.operations)).state else s
  }

  function Step(w: World, e: Event): World {
    match e
    case Other(call) => w.(state := CallEffect(w.state, call))
    case Replicated(op) => w.(state := BatchPool.Apply(w.state, op))
    case Begin => if w.tx.Some? then w else World(w.state, Some(Transaction(w.state.rev, [], map[])), [])
    case Select(key, end, limit) =>
      if w.tx.None? then w
      else
        var kvs := Found(w.state, key, end, limit);
        World(w.state, Some(w.tx.value.(readSet := Record(w.tx.value.readSet, kvs))),
              w.asked + [Asked(key, end, limit, kvs)])
    case Write(op) =>
      if w.tx.None? then w.(state := OpEffect(w.state, StoreOp(op)))
      else w.(tx := Some(w.tx.value.(operations := w.tx.value.operations + [op])))
    case Commit =>
      if w.tx.None? then w
      else if w.tx.value.operations == [] then World(w.state, None, [])
      else World(CommitState(w.state, w.tx.value), None, [])
    case Rollback => if w.tx.None? then w else World(w.state, None, [])
  }

  function Run(es: seq<Event>): World {
    if es == [] then World(InitState, None, []) else Step(Run(es[..|es| - 1]), es[|es| - 1])
  }

  // ---------------------------------------------------------------- a revision names one entry

  ghost predicate StoredOk(s: State) {
    forall k :: k in s.kv ==> s.kv[k].key == k && 1 <= s.kv[k].modRev <= s.rev
  }

  /** t comes after s: what it holds was in s, or was written since. */
  ghost predicate Follows(s: State, t: State) {
    && s.rev <= t.rev
    && StoredOk(t)
    && forall k :: k in t.kv ==> (k in s.kv && t.kv[k] == s.kv[k]) || t.kv[k].modRev > s.rev
  }

  /** If the store holds kv's revision at kv's key, it holds kv itself. */
  ghost predicate Frozen(s: State, kv: KeyValue) {
    1 <= kv.modRev <= s.rev &&
    (kv.key in s.kv && s.kv[kv.key].modRev == kv.modRev ==> s.kv[kv.key] == kv)
  }

  lemma FollowsTransitive(s: State, t: State, u: State)
    requires Follows(s, t) && Follows(t, u)
    ensures Follows(s, u)
  {
  }

  lemma FrozenStays(s: State, t: State, kv: KeyValue)
    requires Frozen(s, kv) && Follows(s, t)
    ensures Frozen(t, kv)
  {
  }

  lemma PutFollows(s: State, key: Key, value: seq<byte>, lease: int)
    requires StoredOk(s) && s.rev >= 0
    ensures Follows(s, PutDirect(s, key, value, lease))
  {
  }

  lemma DropFollows(s: State, ks: seq<Key>, r: int)
    requires StoredOk(s) && s.rev <= r
    ensures Follows(s, DropAll(s, ks).(rev := r))
  {
    hide DropAll;
    DropAllExact(s, ks);
    var t := DropAll(s, ks);
    assert t.kv == s.kv - KeySet(ks);
  }

  lemma DeleteFollows(s: State, key: Key, end: Key)
    requires StoredOk(s)
    ensures Follows(s, DeleteOnce(s, key, end))
  {
    hide DropAll, DoomedKeys;
    DropFollows(s, DoomedKeys(s.kv, key, end), s.rev + 1);
  }

  lemma OpFollows(s: State, op: Op)
    requires StoredOk(s) && s.rev >= 0
    ensures Follows(s, OpEffect(s, op))
  {
    hide PutDirect, DeleteOnce;
    match op
    case OpRange(_, _, _) =>
    case OpPut(key, value, lease) => PutFollows(s, key, value, lease);
    case OpDelete(key, end) => DeleteFollows(s, key, end);
  }

  lemma {:induction false} RunOpsFollows(s: State, expired: set<int>, ops: seq<Op>)
    requires StoredOk(s) && s.rev >= 0
    ensures Follows(s, RunOps(s, expired, ops).state)
  {
    hide OpEffect, OpAnswer, OpAllowed;
    if ops != [] {
      var n := |ops| - 1;
      RunOpsFollows(s, expired, ops[..n]);
      var t := RunOps(s, expired, ops[..n]).state;
      OpFollows(t, ops[n]);
      FollowsTransitive(s, t, OpEffect(t, ops[n]));
    }
  }

  lemma CallFollows(s: State, c: Call)
    requires StoredOk(s) && s.rev >= 0
    ensures Follows(s, CallEffect(s, c))
  {
    hide PutDirect, DeleteOnce, RunOps, LeasedKeys;
    match c
    case PutCall(key, value, lease, _) => PutFollows(s, key, value, lease);
    case DeleteCall(key, end) => DeleteFollows(s, key, end);
    case TxnCall(compares, thenOps, elseOps, expired) =>
      RunOpsFollows(s, expired, Chosen(s, compares, thenOps, elseOps));
    case GrantCall(_) =>
    case RevokeCall(_) =>
  }

  /** The replicated path: one revision for every key a deletion or a revocation removes. */
  lemma ApplyFollows(s: State, op: BatchPool.RaftOp)
    requires StoredOk(s) && s.rev >= 0
    ensures Follows(s, BatchPool.Apply(s, op))
  {
    hide PutDirect, DropAll, DoomedKeys, LeasedKeys, RunOps;
    match op
    case Put(key, value, lease) => PutFollows(s, key, value, lease);
    case Delete(key, end) => DropFollows(s, DoomedKeys(s.kv, key, end), s.rev + |DoomedKeys(s.kv, key, end)|);
    case Txn(compares, thenOps, elseOps, expired) =>
      RunOpsFollows(s, expired, Chosen(s, compares, thenOps, elseOps));
    case LeaseGrant(_) =>
    case LeaseRevoke(id) =>
      if id in s.leases {
        DropFollows(s.(leases := s.leases - {id}), LeasedKeys(s, id), s.rev + |LeasedKeys(s, id)|);
      }
    case Unknown(_) =>
  }

  // ---------------------------------------------------------------- the read set

  /** The last entry returned for k. */
  function LastRead(seen: seq<KeyValue>, k: Key): Option<KeyValue> {
    if seen == [] then None
    else if seen[|seen| - 1].key == k then Some(seen[|seen| - 1])
    else LastRead(seen[..|seen| - 1], k)
  }

  ghost predicate Tracks(readSet: map<Key, int>, seen: seq<KeyValue>) {
    forall k :: RevRead(readSet, k) == RevOf(LastRead(seen, k))
  }

  function RevRead(readSet: map<Key, int>, k: Key): Option<int> {
    if k in readSet then Some(readSet[k]) else None
  }

  function RevOf(kv: Option<KeyValue>): Option<int> {
    if kv.Some? then Some(kv.value.modRev) else None
  }

  lemma {:induction false} RecordTracks(readSet: map<Key, int>, seen: seq<KeyValue>, kvs: seq<KeyValue>)
    requires Tracks(readSet, seen)
    ensures Tracks(Record(readSet, kvs), seen + kvs)
  {
    if kvs == [] {
      assert seen + kvs == seen;
    } else {
      var n := |kvs| - 1;
      RecordTracks(readSet, seen, kvs[..n]);
      assert seen + kvs == (seen + kvs[..n]) + [kvs[n]];
      assert ((seen + kvs[..n]) + [kvs[n]])[..|seen + kvs[..n]|] == seen + kvs[..n];
      var after := Record(readSet, kvs);
      forall k
        ensures RevRead(after, k) == RevOf(LastRead(seen + kvs, k))
      {
        assert RevRead(Record(readSet, kvs[..n]), k) == RevOf(LastRead(seen + kvs[..n], k));
      }
    }
  }

  lemma {:induction false} LastReadIsRead(seen: seq<KeyValue>, k: Key)
    ensures var r := LastRead(seen, k);
            if r.Some? then r.value in seen && r.value.key == k
            else forall kv :: kv in seen ==> kv.key != k
  {
    if seen != [] {
      var n := |seen| - 1;
      assert seen == seen[..n] + [seen[n]];
      LastReadIsRead(seen[..n], k);
    }
  }

  function KeysOf(kvs: seq<KeyValue>): (ks: seq<Key>)
    ensures |ks| == |kvs| && forall i :: 0 <= i < |kvs| ==> ks[i] == kvs[i].key
  {
    seq(|kvs|, i requires 0 <= i < |kvs| => kvs[i].key)
  }

  /** The answer has the form of an answer: keys of the interval in order, no more than the limit. */
  ghost predicate AnswerOk(a: Asked) {
    if a.end == [] then a.kvs == [] || (|a.kvs| == 1 && a.kvs[0].key == a.key)
    else
      && Sorted(KeysOf(a.kvs)) && (0 < a.limit ==> |a.kvs| <= a.limit)
      && forall i :: 0 <= i < |a.kvs| ==> InInterval(a.kvs[i].key, a.key, a.end)
  }

  lemma FoundOk(s: State, key: Key, end: Key, limit: int)
    requires StoredOk(s)
    ensures AnswerOk(Asked(key, end, limit, Found(s, key, end, limit)))
  {
    hide IntervalKeys, InInterval;
    IntervalKeysPresent(s.kv, key, end);
  }

  ghost predicate Inv(w: World) {
    && StoredOk(w.state)
    && w.state.rev >= 0
    && (w.tx.Some? ==>
          && Tracks(w.tx.value.readSet, Seen(w.asked))
          && (forall kv :: kv in Seen(w.asked) ==> Frozen(w.state, kv))
          && (forall i :: 0 <= i < |w.asked| ==> AnswerOk(w.asked[i])))
  }

  lemma FoundFrozen(s: State, key: Key, end: Key, limit: int, kv: KeyValue)
    requires StoredOk(s) && kv in Found(s, key, end, limit)
    ensures Frozen(s, kv)
  {
    hide IntervalKeys, InInterval;
    if end != [] {
      IntervalKeysPresent(s.kv, key, end);
      var i :| 0 <= i < |Found(s, key, end, limit)| && Found(s, key, end, limit)[i] == kv;
      assert kv == s.kv[IntervalKeys(s.kv, key, end)[i]];
    }
  }

  lemma StepState(w: World, e: Event)
    requires Inv(w)
    ensures Follows(w.state, Step(w, e).state)
  {
    hide Tracks, Found, RunOps, OpEffect, CallEffect, ReadsHold, Frozen, Seen, BatchPool.Apply;
    match e
    case Other(call) => CallFollows(w.state, call);
    case Replicated(op) => ApplyFollows(w.state, op);
    case Write(op) => OpFollows(w.state, StoreOp(op));
    case Commit =>
      if w.tx.Some? {
        RunOpsFollows(w.state, {}, StoreOps(w.tx.value.operations));
      }
    case _ =>
  }

  /** Every step, of this connection or of anyone else, keeps the invariant. */
  lemma StepInv(w: World, e: Event)
    requires Inv(w)
    ensures Inv(Step(w, e))
  {
    hide Tracks, Found, RunOps, OpEffect, CallEffect, ReadsHold, Frozen, Record, CommitState, Seen, AnswerOk, BatchPool.Apply;
    StepState(w, e);
    var w' := Step(w, e);
    NothingSeen();
    if e.Select? {
      SeenSnoc(w.asked, Asked(e.key, e.end, e.limit, Found(w.state, e.key, e.end, e.limit)));
    }
    if w'.tx.Some? {
      forall kv | kv in Seen(w'.asked)
        ensures Frozen(w'.state, kv)
      {
        if w.tx.Some? && kv in Seen(w.asked) {
          FrozenStays(w.state, w'.state, kv);
        } else if e.Select? {
          FoundFrozen(w.state, e.key, e.end, e.limit, kv);
        }
      }
      if e.Select? {
        FoundOk(w.state, e.key, e.end, e.limit);
        RecordTracks(w.tx.value.readSet, Seen(w.asked), Found(w.state, e.key, e.end, e.limit));
      } else if e.Begin? && w.tx.None? {
        NothingTracked();
      }
    }
  }

  lemma NothingSeen()
    ensures Seen([]) == []
  {
  }

  lemma SeenSnoc(asked: seq<Asked>, a: Asked)
    ensures Seen(asked + [a]) == Seen(asked) + a.kvs
  {
    assert (asked + [a])[..|asked|] == asked;
  }

  lemma NothingTracked()
    ensures Tracks(map[], [])
  {
  }

  lemma {:induction false} RunInv(es: seq<Event>)
    ensures Inv(Run(es))
  {
    hide Step;
    if es != [] {
      RunInv(es[..|es| - 1]);
      StepInv(Run(es[..|es| - 1]), es[|es| - 1]);
    }
  }

  // ---------------------------------------------------------------- what a commit proves

  ghost predicate Current(s: State, kv: KeyValue) {
    kv.key in s.kv && s.kv[kv.key] == kv
  }

  lemma CompareIsCurrent(s: State, kv: KeyValue)
    requires Frozen(s, kv)
    ensures Holds(s.kv, ReadCompare(kv.key, kv.modRev)) <==> Current(s, kv)
  {
  }

  /** Every key that was read holds the very entry last returned for it. */
  ghost predicate LastReadsStand(s: State, seen: seq<KeyValue>) {
    forall k :: LastReadStands(s, seen, k)
  }

  ghost predicate LastReadStands(s: State, seen: seq<KeyValue>, k: Key) {
    LastRead(seen, k).Some? ==> Current(s, LastRead(seen, k).value)
  }

  lemma KeyReadStands(w: World, k: Key)
    requires Inv(w) && w.tx.Some?
    ensures var readSet := w.tx.value.readSet;
            (k in readSet ==> Holds(w.state.kv, ReadCompare(k, readSet[k]))) <==> LastReadStands(w.state, Seen(w.asked), k)
  {
    hide LastRead, Holds, Frozen, StoredOk;
    var readSet := w.tx.value.readSet;
    assert RevRead(readSet, k) == RevOf(LastRead(Seen(w.asked), k));
    LastReadIsRead(Seen(w.asked), k);
    if k in readSet {
      CompareIsCurrent(w.state, LastRead(Seen(w.asked), k).value);
    }
  }

  lemma ReadsStand(w: World)
    requires Inv(w) && w.tx.Some?
    ensures ReadsHold(w.state.kv, w.tx.value.readSet) <==> LastReadsStand(w.state, Seen(w.asked))
  {
    hide LastReadStands, Holds, Inv;
    forall k
      ensures (k in w.tx.value.readSet ==> Holds(w.state.kv, ReadCompare(k, w.tx.value.readSet[k]))) <==>
              LastReadStands(w.state, Seen(w.asked), k)
    {
      KeyReadStands(w, k);
    }
  }

  /**
   * After any interleaving, a commit goes through exactly when every key the transaction has
   * read still holds the very entry last returned for it.
   */
  lemma CommitSound(es: seq<Event>)
    requires Run(es).tx.Some?
    ensures ReadsHold(Run(es).state.kv, Run(es).tx.value.readSet) <==> LastReadsStand(Run(es).state, Seen(Run(es).asked))
  {
    hide Run, Inv, ReadsHold, LastReadsStand;
    RunInv(es);
    ReadsStand(Run(es));
  }

  /** No key was returned with two different entries. */
  ghost predicate ReadsAgree(seen: seq<KeyValue>) {
    forall a, b :: a in seen && b in seen && a.key == b.key ==> a == b
  }

  /**
   * Of a commit that goes through, all reads still stand exactly when no key was read twice
   * with different entries: an earlier read of the same key is not checked.
   */
  lemma CommittedReads(es: seq<Event>)
    requires Run(es).tx.Some? && ReadsHold(Run(es).state.kv, Run(es).tx.value.readSet)
    ensures (forall kv :: kv in Seen(Run(es).asked) ==> Current(Run(es).state, kv)) <==> ReadsAgree(Seen(Run(es).asked))
  {
    hide Run, LastRead, ReadsHold;
    CommitSound(es);
    var w := Run(es);
    if ReadsAgree(Seen(w.asked)) {
      forall kv | kv in Seen(w.asked)
        ensures Current(w.state, kv)
      {
        LastReadIsRead(Seen(w.asked), kv.key);
        assert LastReadStands(w.state, Seen(w.asked), kv.key);
      }
    }
  }

  // ---------------------------------------------------------------- what a commit proves of whole queries

  /** Asked again, the query gives the answer it got. */
  ghost predicate Stands(s: State, a: Asked) {
    Found(s, a.key, a.end, a.limit) == a.kvs
  }

  /** k lies where the answer looked: in the interval and, if the limit was used up, before the last key returned. */
  predicate Reaches(a: Asked, k: Key) {
    if a.end == [] then k == a.key
    else InInterval(k, a.key, a.end) && (0 < a.limit <= |a.kvs| ==> Less(k, a.kvs[|a.kvs| - 1].key))
  }

  /** No key is stored where the answer looked that the answer does not list. */
  ghost predicate NothingAppeared(s: State, a: Asked) {
    forall k :: k in s.kv && Reaches(a, k) ==> k in KeysOf(a.kvs)
  }

  lemma CutWhole(ks: seq<Key>, limit: int, answer: seq<Key>)
    requires Sorted(ks) && Sorted(answer) && (limit <= 0 || |answer| < limit)
    ensures Cut(ks, limit) == answer <==> forall k :: k in ks <==> k in answer
  {
    if forall k :: k in ks <==> k in answer {
      SortedUnique(ks, answer);
    }
  }

  lemma SortedBefore(ks: seq<Key>, i: nat, j: nat)
    requires Sorted(ks) && i < |ks| && j < |ks|
    ensures Less(ks[i], ks[j]) <==> i < j
  {
    if j < i {
      LessAsymmetric(ks[j], ks[i]);
    } else if i == j {
      LessIrreflexive(ks[i]);
    }
  }

  /** The first |answer| keys of ks, told by membership. */
  lemma PrefixExact(ks: seq<Key>, answer: seq<Key>)
    requires Sorted(ks) && Sorted(answer) && answer != []
    ensures |answer| <= |ks| && ks[..|answer|] == answer <==>
            (forall k :: k in answer ==> k in ks) && forall k :: k in ks && Less(k, answer[|answer| - 1]) ==> k in answer
  {
    var n := |answer|;
    if n <= |ks| && ks[..n] == answer {
      assert forall i :: 0 <= i < n ==> answer[i] == ks[i];
      forall k | k in ks && Less(k, answer[n - 1])
        ensures k in answer
      {
        var j :| 0 <= j < |ks| && ks[j] == k;
        SortedBefore(ks, j, n - 1);
        assert answer[j] == k;
      }
    }
    if (forall k :: k in answer ==> k in ks) && forall k :: k in ks && Less(k, answer[n - 1]) ==> k in answer {
      PrefixFound(ks, answer);
    }
  }

  lemma PrefixFound(ks: seq<Key>, answer: seq<Key>)
    requires Sorted(ks) && Sorted(answer) && answer != []
    requires (forall k :: k in answer ==> k in ks) && forall k :: k in ks && Less(k, answer[|answer| - 1]) ==> k in answer
    ensures |answer| <= |ks| && ks[..|answer|] == answer
  {
    var n := |answer|;
    assert answer[n - 1] in answer;
    var p :| 0 <= p < |ks| && ks[p] == answer[n - 1];
    var head := ks[..p + 1];
    forall k
      ensures k in head <==> k in answer
    {
      if k in head {
        var j :| 0 <= j <= p && ks[j] == k;
        SortedBefore(ks, j, p);
        assert j < p ==> Less(k, answer[n - 1]);
        assert k in ks;
      }
      if k in answer {
        var i :| 0 <= i < n && answer[i] == k;
        SortedBefore(answer, i, n - 1);
        var j :| 0 <= j < |ks| && ks[j] == k;
        SortedBefore(ks, j, p);
        assert i < n - 1 ==> j < p;
        if i == n - 1 {
          SortedDistinct(ks, j, p);
        }
        assert head[j] == k;
      }
    }
    SortedUnique(head, answer);
  }

  /** A limited listing, told by membership alone. */
  lemma CutExact(ks: seq<Key>, limit: int, answer: seq<Key>)
    requires Sorted(ks) && Sorted(answer) && (0 < limit ==> |answer| <= limit)
    ensures Cut(ks, limit) == answer <==>
            && (forall k :: k in answer ==> k in ks)
            && (forall k :: k in ks && (0 < limit <= |answer| ==> Less(k, answer[|answer| - 1])) ==> k in answer)
  {
    hide Less, Sorted;
    if 0 < limit == |answer| {
      PrefixExact(ks, answer);
      assert |ks| == limit ==> ks[..limit] == ks;
    } else {
      CutWhole(ks, limit, answer);
    }
  }

  lemma ListingStands(s: State, a: Asked)
    requires StoredOk(s) && AnswerOk(a) && a.end != []
    ensures Stands(s, a) <==> Cut(IntervalKeys(s.kv, a.key, a.end), a.limit) == KeysOf(a.kvs) && forall kv :: kv in a.kvs ==> Current(s, kv)
  {
    hide IntervalKeys, Sorted, InInterval;
    IntervalKeysPresent(s.kv, a.key, a.end);
    var ks, found := Cut(IntervalKeys(s.kv, a.key, a.end), a.limit), Found(s, a.key, a.end, a.limit);
    assert |found| == |ks| && forall i :: 0 <= i < |ks| ==> found[i] == s.kv[ks[i]] && found[i].key == ks[i];
    if ks == KeysOf(a.kvs) && forall kv :: kv in a.kvs ==> Current(s, kv) {
      assert forall i :: 0 <= i < |ks| ==> a.kvs[i] in a.kvs;
      assert found == a.kvs;
    }
    if Stands(s, a) {
      assert ks == KeysOf(a.kvs);
    }
  }

  /** A query stands exactly when all it returned is still current and nothing appeared where it looked. */
  lemma QueryStands(s: State, a: Asked)
    requires StoredOk(s) && AnswerOk(a)
    ensures Stands(s, a) <==> (forall kv :: kv in a.kvs ==> Current(s, kv)) && NothingAppeared(s, a)
  {
    hide IntervalKeys, Sorted, InInterval, Less, Found, StoredOk;
    if a.end == [] {
      PointStands(s, a);
    } else {
      var ks, answer := IntervalKeys(s.kv, a.key, a.end), KeysOf(a.kvs);
      ListingStands(s, a);
      IntervalKeysPresent(s.kv, a.key, a.end);
      CutExact(ks, a.limit, answer);
      IntervalMembers(s, a);
      if forall kv :: kv in a.kvs ==> Current(s, kv) {
        CurrentAreListed(s, a);
      }
    }
  }

  lemma PointStands(s: State, a: Asked)
    requires StoredOk(s) && AnswerOk(a) && a.end == []
    ensures Stands(s, a) <==> (forall kv :: kv in a.kvs ==> Current(s, kv)) && NothingAppeared(s, a)
  {
    if a.kvs != [] {
      assert a.kvs[0] in a.kvs && KeysOf(a.kvs)[0] == a.key;
    }
  }

  lemma IntervalMembers(s: State, a: Asked)
    ensures forall k :: k in IntervalKeys(s.kv, a.key, a.end) <==> k in s.kv && InInterval(k, a.key, a.end)
  {
  }

  lemma CurrentAreListed(s: State, a: Asked)
    requires AnswerOk(a) && a.end != [] && forall kv :: kv in a.kvs ==> Current(s, kv)
    ensures forall k :: k in KeysOf(a.kvs) ==> k in IntervalKeys(s.kv, a.key, a.end)
  {
    hide InInterval, Sorted;
    IntervalMembers(s, a);
    forall k | k in KeysOf(a.kvs)
      ensures k in IntervalKeys(s.kv, a.key, a.end)
    {
      var i :| 0 <= i < |a.kvs| && a.kvs[i].key == k;
      assert a.kvs[i] in a.kvs;
    }
  }

  lemma {:induction false} SeenExact(asked: seq<Asked>, kv: KeyValue)
    ensures kv in Seen(asked) <==> exists i :: 0 <= i < |asked| && kv in asked[i].kvs
  {
    if asked != [] {
      var n := |asked| - 1;
      SeenExact(asked[..n], kv);
      assert asked == asked[..n] + [asked[n]];
    }
  }

  ghost predicate AllStand(w: World) {
    forall i :: 0 <= i < |w.asked| ==> Stands(w.state, w.asked[i])
  }

  ghost predicate NothingAppearedAnywhere(w: World) {
    forall i :: 0 <= i < |w.asked| ==> NothingAppeared(w.state, w.asked[i])
  }

  /** Of a commit that goes through, every query would still get its answer exactly when no key was
      returned with two different entries and no key appeared where a query had looked. */
  lemma CommittedQueries(es: seq<Event>)
    requires Run(es).tx.Some? && ReadsHold(Run(es).state.kv, Run(es).tx.value.readSet)
    ensures AllStand(Run(es)) <==> ReadsAgree(Seen(Run(es).asked)) && NothingAppearedAnywhere(Run(es))
  {
    hide Run, ReadsHold, Stands, NothingAppeared, AnswerOk, ReadsAgree, Current, Seen;
    var w := Run(es);
    RunInv(es);
    CommittedReads(es);
    forall i | 0 <= i < |w.asked|
      ensures Stands(w.state, w.asked[i]) <==>
              (forall kv :: kv in w.asked[i].kvs ==> Current(w.state, kv)) && NothingAppeared(w.state, w.asked[i])
    {
      QueryStands(w.state, w.asked[i]);
    }
    forall kv
      ensures kv in Seen(w.asked) <==> exists i :: 0 <= i < |w.asked| && kv in w.asked[i].kvs
    {
      SeenExact(w.asked, kv);
    }
  }

  // ---------------------------------------------------------------- what a commit writes

  function LastWrite(ops: seq<TxOp>, k: Key): Option<TxOp> {
    if ops == [] then None
    else if ops[|ops| - 1].key == k then Some(ops[|ops| - 1])
    else LastWrite(ops[..|ops| - 1], k)
  }

  /** What key k holds once ops have run on s. */
  ghost predicate WrittenAs(s: State, t: State, op: Option<TxOp>, k: Key) {
    match op
    case None => Lookup(t.kv, k) == Lookup(s.kv, k)
    case Some(TxPut(_, value)) => k in t.kv && t.kv[k].value == value && t.kv[k].lease == 0 && t.kv[k].modRev > s.rev
    case Some(TxDelete(_)) => k !in t.kv
  }

  lemma WriteStep(s: State, t: State, pre: Option<TxOp>, op: TxOp, k: Key)
    requires WrittenAs(s, t, pre, k) && s.rev <= t.rev
    ensures WrittenAs(s, OpEffect(t, StoreOp(op)), if op.key == k then Some(op) else pre, k)
    ensures s.rev <= OpEffect(t, StoreOp(op)).rev
  {
    match op
    case TxPut(key, value) =>
    case TxDelete(key) =>
      if key in t.kv {
        assert DropAll(t, [key]) == Drop(DropAll(t, [key][..0]), key);
      }
  }

  /** The writes go in together and in order: for every key the last one wins, no other key changes. */
  lemma {:induction false} CommitWrites(s: State, ops: seq<TxOp>, k: Key)
    ensures RunOps(s, {}, StoreOps(ops)).ok
    ensures s.rev <= RunOps(s, {}, StoreOps(ops)).state.rev
    ensures WrittenAs(s, RunOps(s, {}, StoreOps(ops)).state, LastWrite(ops, k), k)
  {
    hide WrittenAs, OpEffect, OpAnswer;
    if ops == [] {
      NothingWritten(s, k);
    } else {
      var n := |ops| - 1;
      CommitWrites(s, ops[..n], k);
      assert StoreOps(ops)[..n] == StoreOps(ops[..n]);
      WriteStep(s, RunOps(s, {}, StoreOps(ops[..n])).state, LastWrite(ops[..n], k), ops[n], k);
    }
  }

  lemma NothingWritten(s: State, k: Key)
    ensures WrittenAs(s, s, None, k)
  {
  }

  // ---------------------------------------------------------------- a transaction from begin to end

  lemma RunSnoc(es: seq<Event>, e: Event)
    ensures Run(es + [e]) == Step(Run(es), e)
  {
    assert (es + [e])[..|es|] == es;
  }

  /** Neither committed nor rolled back in between. */
  predicate Ongoing(es: seq<Event>) {
    forall i :: 0 <= i < |es| ==> !es[i].Commit? && !es[i].Rollback?
  }

  /** The connection's own writes, in order. */
  function WritesIn(es: seq<Event>): seq<TxOp> {
    if es == [] then []
    else WritesIn(es[..|es| - 1]) + (if es[|es| - 1].Write? then [es[|es| - 1].op] else [])
  }

  /** What everybody else does to the store. */
  function Elsewhere(s: State, es: seq<Event>): State {
    if es == [] then s
    else
      var t := Elsewhere(s, es[..|es| - 1]);
      match es[|es| - 1]
      case Other(call) => CallEffect(t, call)
      case Replicated(op) => BatchPool.Apply(t, op)
      case _ => t
  }

  /** An open transaction keeps its writes to itself: the store changes by what the others do. */
  lemma {:induction false} Buffered(es: seq<Event>, seg: seq<Event>)
    requires Run(es).tx.None? && Ongoing(seg)
    ensures var w := Run(es + [Begin] + seg);
            w.tx.Some? && w.tx.value.operations == WritesIn(seg) && w.state == Elsewhere(Run(es).state, seg)
  {
    hide Run, CallEffect, BatchPool.Apply, Found, Record;
    if seg == [] {
      RunSnoc(es, Begin);
      assert es + [Begin] + seg == es + [Begin];
    } else {
      var pre, e := seg[..|seg| - 1], seg[|seg| - 1];
      Buffered(es, pre);
      assert es + [Begin] + seg == (es + [Begin] + pre) + [e];
      RunSnoc(es + [Begin] + pre, e);
    }
  }

  /** A transaction leaves nothing behind when it is rolled back, when it wrote nothing, or when a key it
      read no longer holds the entry last returned for it. Otherwise a commit makes its last write of every
      key, and nothing else, visible at once. */
  lemma TransactionExact(es: seq<Event>, seg: seq<Event>)
    requires Run(es).tx.None? && Ongoing(seg)
    ensures var open, s, ops := es + [Begin] + seg, Elsewhere(Run(es).state, seg), WritesIn(seg);
            var t := Run(open + [Commit]).state;
            && Run(open + [Rollback]) == World(s, None, []) && Run(open + [Commit]) == World(t, None, [])
            && (ops == [] || !LastReadsStand(s, Seen(Run(open).asked)) ==> t == s)
            && (ops != [] && LastReadsStand(s, Seen(Run(open).asked)) ==>
                  forall k :: WrittenAs(s, t, LastWrite(ops, k), k))
  {
    hide Run, LastReadsStand, WrittenAs, LastWrite, Elsewhere, WritesIn, Seen, ReadsHold, RunOps;
    var open, s, ops := es + [Begin] + seg, Elsewhere(Run(es).state, seg), WritesIn(seg);
    Buffered(es, seg);
    RunSnoc(open, Rollback);
    RunSnoc(open, Commit);
    CommitSound(open);
    forall k
      ensures WrittenAs(s, RunOps(s, {}, StoreOps(ops)).state, LastWrite(ops, k), k)
    {
      CommitWrites(s, ops, k);
    }
  }

  // ---------------------------------------------------------------- what a commit does not notice

  const A: Key := [97]
  const B: Key := [98]

  /** A query that found nothing is not in the read set: the key may appear before the commit. */
  lemma PhantomGoesUnnoticed() returns (es: seq<Event>)
    ensures Run(es).tx.Some? && Run(es).tx.value.operations != [] && Select(A, [], 1) in es
    ensures A in Run(es).state.kv && Run(es).asked == [Asked(A, [], 1, [])] && !AllStand(Run(es))
    ensures ReadsHold(Run(es).state.kv, Run(es).tx.value.readSet)
  {
    hide Run;
    var e1 := RunOne(Begin);
    RunSnoc(e1, Select(A, [], 1));
    assert Found(InitState, A, [], 1) == [];
    var e2 := e1 + [Select(A, [], 1)];
    assert Select(A, [], 1) == e2[|e1|];
    RunSnoc(e2, Write(TxPut(B, [])));
    es := e2 + [Write(TxPut(B, []))];
    RunSnoc(es, Other(PutCall(A, [1], 0, {})));
    es := es + [Other(PutCall(A, [1], 0, {}))];
    assert Run(es).asked[0] == Asked(A, [], 1, []) && !Stands(Run(es).state, Run(es).asked[0]);
  }

  lemma RunOne(e: Event) returns (es: seq<Event>)
    ensures es == [e] && Run(es) == Step(World(InitState, None, []), e)
  {
    es := [e];
    assert es[..0] == [];
  }

  /** A second query of the same key replaces the first in the read set, whatever happened in between. */
  lemma RereadGoesUnnoticed() returns (es: seq<Event>)
    ensures Run(es).tx.Some? && Run(es).tx.value.operations != []
    ensures ReadsHold(Run(es).state.kv, Run(es).tx.value.readSet) && !ReadsAgree(Seen(Run(es).asked))
  {
    hide Run;
    var put1, put2, select := Other(PutCall(A, [1], 0, {})), Other(PutCall(A, [2], 0, {})), Select(A, [], 1);
    es := RunOne(put1);
    var a1 := KeyValue(A, [1], 1, 1, 1, 0);
    assert Run(es).state == State(map[A := a1], 1, map[]);
    RunSnoc(es, Begin);
    es := es + [Begin];
    RunSnoc(es, select);
    es := es + [select];
    RecordOne(map[], a1);
    var q1 := Asked(A, [], 1, [a1]);
    assert Run(es) == World(State(map[A := a1], 1, map[]), Some(Transaction(1, [], map[A := 1])), [q1]);
    RunSnoc(es, put2);
    es := es + [put2];
    var a2 := KeyValue(A, [2], 1, 2, 2, 0);
    assert Run(es) == World(State(map[A := a2], 2, map[]), Some(Transaction(1, [], map[A := 1])), [q1]);
    RunSnoc(es, select);
    es := es + [select];
    RecordOne(map[A := 1], a2);
    var once: map<Key, int> := map[A := 1];
    assert once[A := 2] == map[A := 2];
    var q2 := Asked(A, [], 1, [a2]);
    assert Run(es) == World(State(map[A := a2], 2, map[]), Some(Transaction(1, [], map[A := 2])), [q1] + [q2]);
    RunSnoc(es, Write(TxPut(B, [])));
    es := es + [Write(TxPut(B, []))];
    NothingSeen();
    SeenSnoc([], q1);
    SeenSnoc([q1], q2);
    assert [] + [q1] == [q1] && Seen([q1] + [q2]) == [] + [a1] + [a2];
    assert ([] + [a1] + [a2])[0] == a1 && ([] + [a1] + [a2])[1] == a2;
  }

  lemma RecordOne(readSet: map<Key, int>, kv: KeyValue)
    ensures Record(readSet, [kv]) == readSet[kv.key := kv.modRev]
  {
    assert [kv][..0] == [];
  }

  // ---------------------------------------------------------------- the handler

  datatype Result = Ok(affected: int) | AlreadyActive | Conflict | CommitFailed

  class MySQLHandler {
    const store: MemoryEtcd
    var tx: Option<Transaction>
    ghost var asked: seq<Asked>

    ghost predicate Valid()
      reads this, store, store.kvData, store.kvData.shards
    {
      store.Valid()
    }

    ghost function View(): World
      reads this, store, store.kvData
    {
      World(store.View(), tx, asked)
    }

    constructor (store: MemoryEtcd)
      requires store.Valid()
      ensures Valid() && this.store == store && View() == World(store.View(), None, [])
    {
      this.store := store;
      tx := None;
      asked := [];
    }

    method HandleBegin() returns (r: Result)
      requires Valid()
      modifies this
      ensures Valid() && View() == Step(old(View()), Begin)
      ensures r == if old(tx).Some? then AlreadyActive else Ok(0)
    {
      if tx.Some? {
        return AlreadyActive;
      }
      tx := Some(Transaction(store.revision, [], map[]));
      asked := [];
      r := Ok(0);
    }

    method HandleSelect(key: Key, end: Key, limit: int) returns (kvs: seq<KeyValue>)
      requires Valid()
      modifies this
      ensures Valid() && View() == Step(old(View()), Select(key, end, limit))
      ensures kvs == Found(old(View()).state, key, end, limit)
    {
      hide RangeOf;
      var response := store.RangeResponseOf(key, end, limit);
      kvs := response.kvs;
      if tx.Some? {
        var readSet := tx.value.readSet;
        var i := 0;
        while i < |kvs|
          invariant 0 <= i <= |kvs| && readSet == Record(tx.value.readSet, kvs[..i])
        {
          assert kvs[..i + 1][..i] == kvs[..i];
          readSet := readSet[kvs[i].key := kvs[i].modRev];
          i := i + 1;
        }
        assert kvs[..i] == kvs;
        tx := Some(tx.value.(readSet := readSet));
        asked := asked + [Asked(key, end, limit, kvs)];
      }
    }

    method HandleWrite(op: TxOp) returns (r: Result)
      requires Valid()
      modifies this, store, store.kvData, store.kvData.shards
      ensures Valid() && View() == Step(old(View()), Write(op))
      ensures r == Ok(if old(tx).None? && op.TxDelete? && op.key !in old(View()).state.kv then 0 else 1)
    {
      hide PutDirect, DeleteOnce;
      if tx.Some? {
        tx := Some(tx.value.(operations := tx.value.operations + [op]));
        return Ok(1);
      }
      match op
      case TxPut(key, value) =>
        var err, rev, prev := store.PutWithLease(key, value, 0, {});
        r := Ok(1);
      case TxDelete(key) =>
        var deleted, prevKvs, rev := store.DeleteRange(key, []);
        r := Ok(deleted);
    }

    /** One comparison for each key read, in whatever order the read set is walked. */
    method BuildCompares(readSet: map<Key, int>) returns (cmps: seq<Compare>)
      ensures forall m :: AllHold(m, cmps) <==> ReadsHold(m, readSet)
    {
      hide Holds;
      cmps := [];
      var todo := readSet.Keys;
      while todo != {}
        invariant todo <= readSet.Keys
        invariant forall k :: k in readSet && k !in todo ==> ReadCompare(k, readSet[k]) in cmps
        invariant forall i :: 0 <= i < |cmps| ==>
                    cmps[i].key in readSet && cmps[i] == ReadCompare(cmps[i].key, readSet[cmps[i].key])
        decreases |todo|
      {
        var k :| k in todo;
        cmps := cmps + [ReadCompare(k, readSet[k])];
        todo := todo - {k};
      }
      forall m
        ensures AllHold(m, cmps) <==> ReadsHold(m, readSet)
      {
        ComparesMeanReads(m, cmps, readSet);
      }
    }

    method HandleCommit() returns (r: Result)
      requires Valid()
      modifies this, store, store.kvData, store.kvData.shards
      ensures Valid() && View() == Step(old(View()), Commit)
      ensures var t := old(tx);
              if t.None? || t.value.operations == [] then r == Ok(0)
              else r == if ReadsHold(old(View()).state.kv, t.value.readSet) then Ok(|t.value.operations|) else Conflict
    {
      hide AllHold, ReadsHold, OpEffect, OpAnswer, OpAllowed;
      if tx.None? {
        return Ok(0);
      }
      var t := tx.value;
      if |t.operations| == 0 {
        tx, asked := None, [];
        return Ok(0);
      }
      var cmps := BuildCompares(t.readSet);
      var response := store.Txn(cmps, StoreOps(t.operations), [], {});
      ghost var s := old(View()).state;
      assert AllHold(s.kv, cmps) <==> ReadsHold(s.kv, t.readSet);
      CommitWrites(s, t.operations, []);
      tx, asked := None, [];
      match response
      case TxnError =>
        r := CommitFailed;
      case TxnOk(succeeded, _, _) =>
        r := if succeeded then Ok(|t.operations|) else Conflict;
    }

    method HandleRollback() returns (r: Result)
      requires Valid()
      modifies this
      ensures Valid() && View() == Step(old(View()), Rollback) && r == Ok(0)
    {
      if tx.Some? {
        tx, asked := None, [];
      }
      r := Ok(0);
    }
  }

  lemma ComparesMeanReads(m: map<Key, KeyValue>, cmps: seq<Compare>, readSet: map<Key, int>)
    requires forall k :: k in readSet ==> ReadCompare(k, readSet[k]) in cmps
    requires forall i :: 0 <= i < |cmps| ==>
               cmps[i].key in readSet && cmps[i] == ReadCompare(cmps[i].key, readSet[cmps[i].key])
    ensures AllHold(m, cmps) <==> ReadsHold(m, readSet)
  {
    hide Holds;
    if AllHold(m, cmps) {
      forall k | k in readSet
        ensures Holds(m, ReadCompare(k, readSet[k]))
      {
        assert ReadCompare(k, readSet[k]) in cmps;
      }
    }
    if ReadsHold(m, readSet) {
      forall i | 0 <= i < |cmps|
        ensures Holds(m, cmps[i])
      {
        assert cmps[i].key in readSet;
      }
    }
  }
}

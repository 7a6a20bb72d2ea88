/** The RocksDB-backed MVCC store over a sorted byte map, and its restart. */
module RocksStores {
  import opened Bytes
  import opened Revisions
  import opened MvccSpec
  import opened MvccTheorems
  import opened KeyIndexes
  import opened Codec
  import opened MemoryStores

  // ---------------------------------------------------------------- storage keys

  const KvPrefix := Ascii("mvcc:kv:")
  const MetaCurrent := Ascii("mvcc:meta:current_revision")
  const MetaCompacted := Ascii("mvcc:meta:compacted_revision")

  /** prefix + user key + "/" + 16 revision bytes */
  function StorageKey(k: Key, r: Revision): seq<byte> {
    KvPrefix + k + [47] + RevBytes(r)
  }

  function ParseStorageKey(x: seq<byte>): Option<(Key, Revision)>
  {
    if !(KvPrefix <= x) then None
    else
      var rest := x[|KvPrefix|..];
      if |rest| < 17 || rest[|rest| - 17] != 47 then None
      else Some((rest[..|rest| - 17], ParseRev(rest[|rest| - 16..])))
  }

  lemma ParseInvertsStorageKey(k: Key, r: Revision)
    requires IsInt64(r.main) && IsInt64(r.sub)
    ensures ParseStorageKey(StorageKey(k, r)) == Some((k, r))
  {
    hide RevBytes, ParseRev;
    var x := StorageKey(k, r);
    var rest := x[|KvPrefix|..];
    assert rest == k + [47] + RevBytes(r);
    assert rest[..|rest| - 17] == k && rest[|rest| - 16..] == RevBytes(r);
    RevRoundTrip(r);
  }

  lemma StorageKeyInvertsParse(x: seq<byte>)
    requires ParseStorageKey(x).Some?
    ensures StorageKey(ParseStorageKey(x).value.0, ParseStorageKey(x).value.1) == x
  {
    hide RevBytes, ParseRev;
    var rest := x[|KvPrefix|..];
    ParseRevRoundTrip(rest[|rest| - 16..]);
    assert rest == rest[..|rest| - 17] + [47] + rest[|rest| - 16..];
    assert x == KvPrefix + rest;
  }

  lemma MetaOutsidePrefix()
    ensures !(KvPrefix <= MetaCurrent) && !(KvPrefix <= MetaCompacted) && MetaCurrent != MetaCompacted
  {
    assert KvPrefix[5] == 107 && MetaCurrent[5] == 109 && MetaCompacted[5] == 109;
    assert |MetaCurrent| != |MetaCompacted|;
  }

  /** The versions of one key lie in the database in revision order. */
  lemma StorageOrder(k: Key, r: Revision, s: Revision)
    requires IsRev64(r) && IsRev64(s)
    ensures Less(StorageKey(k, r), StorageKey(k, s)) <==> r.LessThan(s)
  {
    hide RevBytes;
    var p := KvPrefix + k + [47];
    LessUnderPrefix(p, RevBytes(r), RevBytes(s));
    RevBytesOrder(r, s);
  }

  // ---------------------------------------------------------------- marks: what the index is built from

  datatype Mark = Mark(key: Key, rev: Revision, tombstone: bool)

  function FoldMarks(ms: seq<Mark>): map<Key, KeyItem>
  {
    if ms == [] then map[]
    else
      var e := ms[|ms| - 1];
      var tree := FoldMarks(ms[..|ms| - 1]);
      if e.tombstone then DeleteTree(tree, e.key, e.rev) else PutTree(tree, e.key, e.rev)
  }

  function KeyMarks(ms: seq<Mark>, k: Key): seq<Mark>
  {
    if ms == [] then []
    else KeyMarks(ms[..|ms| - 1], k) + (if ms[|ms| - 1].key == k then [ms[|ms| - 1]] else [])
  }

  /** The index entry of a key depends on the marks of that key alone. */
  lemma {:induction false} FoldAt(ms: seq<Mark>, k: Key)
    ensures k in FoldMarks(ms) <==> k in FoldMarks(KeyMarks(ms, k))
    ensures k in FoldMarks(ms) ==> FoldMarks(ms)[k] == FoldMarks(KeyMarks(ms, k))[k]
  {
    if ms != [] {
      var n := |ms| - 1;
      FoldAt(ms[..n], k);
      if ms[n].key == k {
        var ks := KeyMarks(ms, k);
        assert ks[..|ks| - 1] == KeyMarks(ms[..n], k);
      } else {
        assert KeyMarks(ms, k) == KeyMarks(ms[..n], k);
      }
    }
  }

  lemma FoldPerKey(a: seq<Mark>, b: seq<Mark>)
    requires forall k :: KeyMarks(a, k) == KeyMarks(b, k)
    ensures FoldMarks(a) == FoldMarks(b)
  {
    forall k
      ensures k in FoldMarks(a) <==> k in FoldMarks(b)
      ensures k in FoldMarks(a) ==> FoldMarks(a)[k] == FoldMarks(b)[k]
    {
      FoldAt(a, k);
      FoldAt(b, k);
    }
  }

  predicate MarksAscend(ms: seq<Mark>) {
    forall i, j :: 0 <= i < j < |ms| ==> ms[i].rev.LessThan(ms[j].rev)
  }

  lemma {:induction false} MarksUnique(a: seq<Mark>, b: seq<Mark>)
    requires MarksAscend(a) && MarksAscend(b) && forall m :: m in a <==> m in b
    ensures a == b
  {
    assert b == [] || b[|b| - 1] in b;
    if a != [] {
      assert a[|a| - 1] in b;
      var i, j := |a| - 1, |b| - 1;
      assert b[j] in a;
      var p :| 0 <= p < |b| && b[p] == a[i];
      var q :| 0 <= q < |a| && a[q] == b[j];
      assert a[i] == b[j];
      forall m
        ensures m in a[..i] <==> m in b[..j]
      {
        if m in a[..i] {
          assert m in a && m != a[i];
          assert m in b;
        }
        if m in b[..j] {
          assert m in b && m != b[j];
          assert m in a;
        }
      }
      MarksUnique(a[..i], b[..j]);
      assert a == a[..i] + [a[i]] && b == b[..j] + [b[j]];
    }
  }

  lemma {:induction false} KeyMarksExact(ms: seq<Mark>, k: Key, m: Mark)
    ensures m in KeyMarks(ms, k) <==> m in ms && m.key == k
  {
    if ms != [] {
      KeyMarksExact(ms[..|ms| - 1], k, m);
      assert ms == ms[..|ms| - 1] + [ms[|ms| - 1]];
    }
  }

  /** Same-key marks of the sequence come in ascending revision order. */
  predicate KeyOrdered(ms: seq<Mark>) {
    forall i, j :: 0 <= i < j < |ms| && ms[i].key == ms[j].key ==> ms[i].rev.LessThan(ms[j].rev)
  }

  lemma {:induction false} KeyMarksAscend(ms: seq<Mark>, k: Key)
    requires KeyOrdered(ms)
    ensures MarksAscend(KeyMarks(ms, k))
  {
    if ms != [] {
      var n := |ms| - 1;
      KeyMarksAscend(ms[..n], k);
      if ms[n].key == k {
        forall i | 0 <= i < |KeyMarks(ms[..n], k)|
          ensures KeyMarks(ms[..n], k)[i].rev.LessThan(ms[n].rev)
        {
          KeyMarksExact(ms[..n], k, KeyMarks(ms[..n], k)[i]);
        }
      }
    }
  }

  /** Two orders of the same marks build the same index if both keep each key's revisions ascending. */
  lemma SameMarksSameIndex(a: seq<Mark>, b: seq<Mark>)
    requires KeyOrdered(a) && KeyOrdered(b) && forall m :: m in a <==> m in b
    ensures FoldMarks(a) == FoldMarks(b)
  {
    forall k
      ensures KeyMarks(a, k) == KeyMarks(b, k)
    {
      KeyMarksAscend(a, k);
      KeyMarksAscend(b, k);
      forall m
        ensures m in KeyMarks(a, k) <==> m in KeyMarks(b, k)
      {
        KeyMarksExact(a, k, m);
        KeyMarksExact(b, k, m);
      }
      MarksUnique(KeyMarks(a, k), KeyMarks(b, k));
    }
    FoldPerKey(a, b);
  }

  // ---------------------------------------------------------------- database contents

  type Db = map<seq<byte>, seq<byte>>

  /** What a scan makes of one stored pair; None when it skips it. */
  function MarkAt(x: seq<byte>, v: seq<byte>, compacted: Revision): Option<Mark>
  {
    var p, kv := ParseStorageKey(x), Decoding(v);
    if p.None? || p.value.1.LessThan(compacted) || kv.None? then None
    else Some(Mark(p.value.0, p.value.1, kv.value.version == 0))
  }

  function ScanMarks(db: Db, xs: seq<seq<byte>>, compacted: Revision): seq<Mark>
  {
    if xs == [] then []
    else
      var x := xs[|xs| - 1];
      var m := if x in db then MarkAt(x, db[x], compacted) else None;
      ScanMarks(db, xs[..|xs| - 1], compacted) + (if m.Some? then [m.value] else [])
  }

  function KvKeys(db: Db): set<seq<byte>> {
    set x | x in db && KvPrefix <= x
  }

  function MarkOf(e: Entry): Mark {
    Mark(e.kv.key, e.rev, e.kv.version == 0)
  }

  function MarksOf(log: seq<Entry>): (ms: seq<Mark>)
    ensures |ms| == |log|
  {
    seq(|log|, i requires 0 <= i < |log| => MarkOf(log[i]))
  }

  predicate EntryFits(e: Entry) {
    && IsRev64(e.rev) && 1 <= e.rev.main
    && 0 <= e.kv.version <= e.rev.main && 0 <= e.kv.createRev <= e.rev.main
  }

  predicate LogFits(log: seq<Entry>) {
    LogAscends(log) && forall i :: 0 <= i < |log| ==> EntryFits(log[i])
  }

  ghost predicate StoredAt(db: Db, e: Entry) {
    StorageKey(e.kv.key, e.rev) in db && db[StorageKey(e.kv.key, e.rev)] == Encoding(e.kv)
  }

  /** Under the MVCC prefix the database holds exactly the entries of the log. */
  ghost predicate HoldsLog(db: Db, log: seq<Entry>) {
    && (forall i :: 0 <= i < |log| ==> StoredAt(db, log[i]))
    && (forall x :: x in db && KvPrefix <= x ==> exists i :: 0 <= i < |log| && x == StorageKey(log[i].kv.key, log[i].rev))
  }

  ghost predicate MetaHolds(db: Db, cur: Revision) {
    && IsRev64(cur)
    && (if MetaCurrent in db then db[MetaCurrent] == RevBytes(cur) else cur == Zero)
    && MetaCompacted !in db
  }

  lemma MarkOfStored(db: Db, e: Entry)
    requires StoredAt(db, e) && EntryFits(e)
    ensures MarkAt(StorageKey(e.kv.key, e.rev), Encoding(e.kv), Zero) == Some(MarkOf(e))
  {
    hide Encoding, Decoding, StorageKey, ParseStorageKey;
    ParseInvertsStorageKey(e.kv.key, e.rev);
    EncodedVersion(e.kv);
  }

  /** Every scanned key yields the mark of the log entry it stores. */
  ghost predicate Yields(db: Db, x: seq<byte>, log: seq<Entry>, i: int) {
    0 <= i < |log| && x in db && x == StorageKey(log[i].kv.key, log[i].rev) && MarkAt(x, db[x], Zero) == Some(MarkOf(log[i]))
  }

  lemma KvKeyYields(db: Db, log: seq<Entry>, x: seq<byte>) returns (i: int)
    requires HoldsLog(db, log) && LogFits(log) && x in KvKeys(db)
    ensures Yields(db, x, log, i)
  {
    hide StorageKey, MarkAt, EntryFits;
    i :| 0 <= i < |log| && x == StorageKey(log[i].kv.key, log[i].rev);
    assert StoredAt(db, log[i]);
    MarkOfStored(db, log[i]);
  }

  lemma {:induction false} ScanAll(db: Db, xs: seq<seq<byte>>)
    requires forall i :: 0 <= i < |xs| ==> xs[i] in db && MarkAt(xs[i], db[xs[i]], Zero).Some?
    ensures |ScanMarks(db, xs, Zero)| == |xs|
    ensures forall i :: 0 <= i < |xs| ==> ScanMarks(db, xs, Zero)[i] == MarkAt(xs[i], db[xs[i]], Zero).value
  {
    hide MarkAt;
    if xs != [] {
      ScanAll(db, xs[..|xs| - 1]);
    }
  }

  /** The scan sees exactly the marks of the log, each key's revisions in ascending order. */
  lemma ScanIsLog(db: Db, log: seq<Entry>, xs: seq<seq<byte>>)
    requires HoldsLog(db, log) && LogFits(log) && xs == Ascending(KvKeys(db))
    ensures KeyOrdered(ScanMarks(db, xs, Zero))
    ensures forall m :: m in ScanMarks(db, xs, Zero) <==> m in MarksOf(log)
  {
    hide StorageKey, MarkAt, KvKeys, ScanMarks, EntryFits, Less;
    forall j | 0 <= j < |xs|
      ensures xs[j] in db && MarkAt(xs[j], db[xs[j]], Zero).Some?
    {
      assert xs[j] in KvKeys(db);
      var i := KvKeyYields(db, log, xs[j]);
    }
    ScanAll(db, xs);
    var ms := ScanMarks(db, xs, Zero);
    forall a, b | 0 <= a < b < |ms| && ms[a].key == ms[b].key
      ensures ms[a].rev.LessThan(ms[b].rev)
    {
      assert xs[a] in KvKeys(db) && xs[b] in KvKeys(db);
      var i := KvKeyYields(db, log, xs[a]);
      var j := KvKeyYields(db, log, xs[b]);
      FitsRev(log[i]);
      FitsRev(log[j]);
      StorageOrder(ms[a].key, log[i].rev, log[j].rev);
    }
    forall m | m in ms
      ensures m in MarksOf(log)
    {
      var j :| 0 <= j < |ms| && ms[j] == m;
      assert xs[j] in KvKeys(db);
      var i := KvKeyYields(db, log, xs[j]);
      assert MarksOf(log)[i] == m;
    }
    forall m | m in MarksOf(log)
      ensures m in ms
    {
      var i :| 0 <= i < |log| && MarksOf(log)[i] == m;
      assert StoredAt(db, log[i]);
      StorageKeyHasPrefix(log[i].kv.key, log[i].rev);
      var x := StorageKey(log[i].kv.key, log[i].rev);
      InKvKeys(db, x);
      MarkOfStored(db, log[i]);
      assert x in xs;
      var j :| 0 <= j < |xs| && xs[j] == x;
      assert ms[j] == m;
    }
  }

  lemma FitsRev(e: Entry)
    requires EntryFits(e)
    ensures IsRev64(e.rev)
  {
  }

  lemma InKvKeys(db: Db, x: seq<byte>)
    requires x in db && KvPrefix <= x
    ensures x in KvKeys(db)
  {
  }

  lemma StorageKeyHasPrefix(k: Key, r: Revision)
    ensures KvPrefix <= StorageKey(k, r)
  {
  }

  /** Restart equivalence: scanning the database in byte order rebuilds the running index. */
  lemma RestartEquivalence(db: Db, log: seq<Entry>)
    requires HoldsLog(db, log) && LogFits(log)
    ensures FoldMarks(ScanMarks(db, Ascending(KvKeys(db)), Zero)) == FoldMarks(MarksOf(log))
  {
    hide HoldsLog, ScanMarks, KvKeys, FoldMarks, EntryFits, MarksOf;
    ScanIsLog(db, log, Ascending(KvKeys(db)));
    LogKeyOrdered(log);
    SameMarksSameIndex(ScanMarks(db, Ascending(KvKeys(db)), Zero), MarksOf(log));
  }

  lemma LogKeyOrdered(log: seq<Entry>)
    requires LogAscends(log)
    ensures KeyOrdered(MarksOf(log))
  {
  }

  /** Writing one more entry. */
  lemma HoldsSnoc(db: Db, log: seq<Entry>, e: Entry)
    requires HoldsLog(db, log) && LogFits(log + [e])
    ensures HoldsLog(db[StorageKey(e.kv.key, e.rev) := Encoding(e.kv)], log + [e])
  {
    hide StorageKey, Encoding, EntryFits;
    var x := StorageKey(e.kv.key, e.rev);
    var db', log' := db[x := Encoding(e.kv)], log + [e];
    forall i | 0 <= i < |log'|
      ensures StoredAt(db', log'[i])
    {
      if i < |log| {
        assert log'[i] == log[i] && log'[|log|] == e;
        assert StoredAt(db, log[i]);
        FitsRev(log'[i]);
        FitsRev(log'[|log|]);
        ParseInvertsStorageKey(log[i].kv.key, log[i].rev);
        ParseInvertsStorageKey(e.kv.key, e.rev);
        assert log'[i].rev.LessThan(log'[|log|].rev);
      }
    }
    forall y | y in db' && KvPrefix <= y
      ensures exists i :: 0 <= i < |log'| && y == StorageKey(log'[i].kv.key, log'[i].rev)
    {
      if y == x {
        assert log'[|log|] == e;
      } else {
        var i :| 0 <= i < |log| && y == StorageKey(log[i].kv.key, log[i].rev);
        assert log'[i] == log[i];
      }
    }
  }

  lemma HoldsMeta(db: Db, log: seq<Entry>, cur: Revision, was: Revision)
    requires HoldsLog(db, log) && MetaHolds(db, was) && IsRev64(cur)
    ensures HoldsLog(db[MetaCurrent := RevBytes(cur)], log) && MetaHolds(db[MetaCurrent := RevBytes(cur)], cur)
  {
    hide StorageKey, Encoding, RevBytes;
    MetaOutsidePrefix();
    var db' := db[MetaCurrent := RevBytes(cur)];
    forall i | 0 <= i < |log|
      ensures StoredAt(db', log[i])
    {
      assert StoredAt(db, log[i]);
      StorageKeyHasPrefix(log[i].kv.key, log[i].rev);
    }
  }

  // ---------------------------------------------------------------- the running store

  /** Database, index and log describe the same versions, all at or below `cur`. */
  ghost predicate KvInv(db: Db, tree: map<Key, KeyItem>, log: seq<Entry>, cur: Revision) {
    && HoldsLog(db, log) && LogFits(log)
    && (forall i :: 0 <= i < |log| ==> log[i].rev.main <= cur.main)
    && tree == FoldMarks(MarksOf(log))
    && (forall k :: RevsIn(tree, k) == KeyRevs(log, k))
  }

  /** The value a put writes: the version counts on from the newest entry, tombstone or not. */
  function PutKv(log: seq<Entry>, key: Key, value: seq<byte>, lease: int, rev: Revision): KeyValue
  {
    match LastAt(log, key, rev)
    case None => KeyValue(key, value, rev.main, rev.main, 1, lease)
    case Some(e) => KeyValue(key, value, e.kv.createRev, rev.main, e.kv.version + 1, lease)
  }

  function TombKv(log: seq<Entry>, key: Key, rev: Revision): KeyValue
  {
    var e := LastAt(log, key, rev);
    KeyValue(key, [], if e.Some? then e.value.kv.createRev else 0, rev.main, 0, 0)
  }

  lemma LogNoZero(log: seq<Entry>)
    requires LogFits(log)
    ensures forall i :: 0 <= i < |log| ==> log[i].rev != Zero
  {
  }

  /** The newest revision the index lists for a key is the one of its last visible entry. */
  lemma NewestIsLastAt(log: seq<Entry>, k: Key, at: Revision, r: Revision)
    requires LogAscends(log) && IsLatest(KeyRevs(log, k), at, r)
    requires forall i :: 0 <= i < |log| ==> log[i].rev != Zero
    ensures if r == Zero then LastAt(log, k, at).None? else LastAt(log, k, at).Some? && LastAt(log, k, at).value.rev == r
  {
    LastAtExact(log, k, at);
    KeyRevsExact(log, k, r);
    if LastAt(log, k, at).Some? {
      KeyRevsExact(log, k, LastAt(log, k, at).value.rev);
    }
  }

  /** The newest stored version of a key, as the index and the database give it. */
  lemma PrevStored(db: Db, tree: map<Key, KeyItem>, log: seq<Entry>, cur: Revision, key: Key, at: Revision, r: Revision)
    requires KvInv(db, tree, log, cur) && IsLatest(RevsIn(tree, key), at, r)
    ensures r == Zero <==> LastAt(log, key, at).None?
    ensures r != Zero ==>
              && StorageKey(key, r) in db && Decoding(db[StorageKey(key, r)]).Some?
              && LastAt(log, key, at).value in log && LastAt(log, key, at).value.rev == r
              && EntryFits(LastAt(log, key, at).value)
              && Decoding(db[StorageKey(key, r)]).value.version == LastAt(log, key, at).value.kv.version
              && Decoding(db[StorageKey(key, r)]).value.createRev == LastAt(log, key, at).value.kv.createRev
  {
    hide StorageKey, Decoding, Encoding, FoldMarks, MarksOf, LastAt, KeyRevs, StoreOf;
    LogNoZero(log);
    assert RevsIn(tree, key) == KeyRevs(log, key);
    NewestIsLastAt(log, key, at, r);
    LastAtExact(log, key, at);
    if r != Zero {
      var e := LastAt(log, key, at).value;
      assert StoredAt(db, e);
      EncodedVersion(e.kv);
    }
  }

  lemma KvStep(db: Db, tree: map<Key, KeyItem>, log: seq<Entry>, cur: Revision, e: Entry, tree': map<Key, KeyItem>)
    requires KvInv(db, tree, log, cur) && LogFits(log + [e]) && e.rev.main <= cur.main
    requires e.kv.version == 0 ==> e.kv.key in tree && !tree[e.kv.key].IsDeleted()
    requires tree' == if e.kv.version == 0 then DeleteTree(tree, e.kv.key, e.rev) else PutTree(tree, e.kv.key, e.rev)
    ensures KvInv(db[StorageKey(e.kv.key, e.rev) := Encoding(e.kv)], tree', log + [e], cur)
  {
    hide StorageKey, Encoding, HoldsLog, KeyRevs, RevsIn, EntryFits, LogFits, DeleteTree, PutTree;
    HoldsSnoc(db, log, e);
    MarksSnoc(log, e);
    PutTreeRevs(tree, e.kv.key, e.rev);
    if e.kv.version == 0 {
      DeleteTreeRevs(tree, e.kv.key, e.rev);
    }
    forall k
      ensures RevsIn(tree', k) == KeyRevs(log + [e], k)
    {
      assert RevsIn(tree, k) == KeyRevs(log, k);
      TreeElsewhere(tree, e.kv.key, e.rev, k);
      KeyRevsSnoc(log, e, k);
    }
  }

  lemma TreeElsewhere(tree: map<Key, KeyItem>, key: Key, rev: Revision, k: Key)
    ensures k != key ==> RevsIn(PutTree(tree, key, rev), k) == RevsIn(tree, k)
    ensures k != key ==> RevsIn(DeleteTree(tree, key, rev), k) == RevsIn(tree, k)
  {
  }

  lemma KeyRevsSnoc(log: seq<Entry>, e: Entry, k: Key)
    ensures KeyRevs(log + [e], k) == KeyRevs(log, k) + (if e.kv.key == k then [e.rev] else [])
  {
    assert (log + [e])[..|log|] == log;
  }

  lemma MarksSnoc(log: seq<Entry>, e: Entry)
    ensures FoldMarks(MarksOf(log + [e])) ==
            if e.kv.version == 0 then DeleteTree(FoldMarks(MarksOf(log)), e.kv.key, e.rev)
            else PutTree(FoldMarks(MarksOf(log)), e.kv.key, e.rev)
  {
    assert MarksOf(log + [e])[..|log|] == MarksOf(log);
  }

  lemma FitsSnoc(log: seq<Entry>, e: Entry)
    requires LogFits(log) && EntryFits(e) && forall i :: 0 <= i < |log| ==> log[i].rev.LessThan(e.rev)
    ensures LogFits(log + [e])
  {
  }

  function LoadRev(db: Db, key: seq<byte>): Revision {
    if key in db && |db[key]| >= 16 then ParseRev(db[key]) else Zero
  }

  lemma LoadedMeta(db: Db, cur: Revision)
    requires MetaHolds(db, cur)
    ensures LoadRev(db, MetaCurrent) == cur && LoadRev(db, MetaCompacted) == Zero
  {
    RevRoundTrip(cur);
  }

  /** Scans all MVCC keys in byte order and replays them into a fresh index. */
  method RebuildKeyIndex(db: Db, compacted: Revision) returns (index: KeyIndex)
    ensures fresh(index) && index.tree == FoldMarks(ScanMarks(db, Ascending(KvKeys(db)), compacted))
  {
    hide MarkAt, DeleteTree, PutTree, KvKeys, FoldMarks, Ascending, ScanMarks;
    index := new KeyIndex();
    var xs := Ascending(KvKeys(db));
    NoMarks(db, compacted);
    var i := 0;
    while i < |xs|
      invariant 0 <= i <= |xs| && fresh(index)
      invariant index.tree == FoldMarks(ScanMarks(db, xs[..i], compacted))
    {
      OneMore(db, xs, i, compacted);
      InDb(db, xs, i);
      var m := MarkAt(xs[i], db[xs[i]], compacted);
      if m.Some? {
        if m.value.tombstone {
          var _ := index.Delete(m.value.key, m.value.rev);
        } else {
          index.Put(m.value.key, m.value.rev);
        }
      }
      i := i + 1;
    }
    assert xs[..i] == xs;
  }

  lemma NoMarks(db: Db, compacted: Revision)
    ensures FoldMarks(ScanMarks(db, [], compacted)) == map[]
  {
  }

  class RocksStore {
    var db: Db
    const keyIndex: KeyIndex
    var currentRev: Revision
    var compactedRev: Revision
    var closed: bool

    /** Every version written so far. */
    ghost var log: seq<Entry>

    ghost predicate Valid()
      reads this, keyIndex
    {
      && keyIndex.Valid() && compactedRev == Zero
      && KvInv(db, keyIndex.tree, log, currentRev) && MetaHolds(db, currentRev)
    }

    /** Opens a store on any database: loads the metadata, then rebuilds the index by a full scan. */
    constructor (db: Db)
      ensures fresh(keyIndex) && this.db == db && !closed && log == []
      ensures currentRev == LoadRev(db, MetaCurrent) && compactedRev == LoadRev(db, MetaCompacted)
      ensures keyIndex.tree == FoldMarks(ScanMarks(db, Ascending(KvKeys(db)), compactedRev))
    {
      this.db := db;
      currentRev, compactedRev := LoadRev(db, MetaCurrent), LoadRev(db, MetaCompacted);
      var index := RebuildKeyIndex(db, LoadRev(db, MetaCompacted));
      keyIndex := index;
      closed, log := false, [];
    }

    method Put(key: Key, value: seq<byte>, lease: int) returns (r: Result<int>)
      requires Valid() && currentRev.main + 1 < TWO63
      modifies this, keyIndex
      ensures Valid() && closed == old(closed)
      ensures key == [] || closed ==>
                r == Err(if key == [] then EmptyKey else Closed) && log == old(log) && currentRev == old(currentRev)
      ensures key != [] && !closed ==>
                var rev := Revision(old(currentRev).main + 1, 0);
                r == Ok(rev.main) && currentRev == rev && log == old(log) + [Entry(rev, PutKv(old(log), key, value, lease, rev))]
    {
      hide KvInv, MetaHolds, StorageKey, Encoding, Decoding, LastAt, RevBytes, PutTree, RevsIn, ItemOk;
      if key == [] {
        return Err(EmptyKey);
      }
      if closed {
        return Err(Closed);
      }
      ghost var cur, log0, tree := currentRev, log, keyIndex.tree;
      CurOk(db, currentRev);
      currentRev := Revision(currentRev.main + 1, 0);
      var rev := currentRev;
      var prevKeyRev := keyIndex.GetRevision(key, rev);
      RevsAscend(db, tree, log, cur, key);
      PrevStored(db, tree, log, cur, key, rev, prevKeyRev);
      var createRev, version := rev.main, 1;
      if prevKeyRev != Zero {
        createRev := 0;
        var x := StorageKey(key, prevKeyRev);
        if x in db {
          var prev := Decoding(db[x]);
          if prev.Some? {
            createRev, version := prev.value.createRev, prev.value.version + 1;
          }
        }
      }
      var kv := KeyValue(key, value, createRev, rev.main, version, lease);
      db := db[StorageKey(key, rev) := Encoding(kv)][MetaCurrent := RevBytes(currentRev)];
      PutDone(old(db), tree, log, cur, Entry(rev, kv));
      PutIndexOk(old(db), tree, log, cur, key, rev);
      OpenHasRevs(tree, key);
      keyIndex.Put(key, rev);
      log := log + [Entry(rev, kv)];
      return Ok(rev.main);
    }

    method Delete(key: Key) returns (r: Result<(int, int)>)
      requires Valid() && currentRev.main + 1 < TWO63
      modifies this, keyIndex
      ensures Valid() && closed == old(closed)
      ensures key == [] || closed ==>
                r == Err(if key == [] then EmptyKey else Closed) && log == old(log) && currentRev == old(currentRev)
      ensures key != [] && !closed && !old(keyIndex.Open(key)) ==>
                r == Ok((currentRev.main, 0)) && log == old(log) && currentRev == old(currentRev)
      ensures key != [] && !closed && old(keyIndex.Open(key)) ==>
                var rev := Revision(old(currentRev).main + 1, 0);
                r == Ok((rev.main, 1)) && currentRev == rev && log == old(log) + [Entry(rev, TombKv(old(log), key, rev))]
    {
      hide KvInv, MetaHolds, TombKv, RevBytes, DeleteTree;
      if key == [] {
        return Err(EmptyKey);
      }
      if closed {
        return Err(Closed);
      }
      if key !in keyIndex.tree || keyIndex.tree[key].IsDeleted() {
        return Ok((currentRev.main, 0));
      }
      ghost var was := currentRev;
      CurOk(db, currentRev);
      AllBelow(db, keyIndex.tree, log, currentRev);
      currentRev := Revision(currentRev.main + 1, 0);
      Later(db, keyIndex.tree, log, was, currentRev);
      WriteTombstone(key, currentRev, was);
      SaveCurrentRevision(was);
      return Ok((currentRev.main, 1));
    }

    /** Tombstones for the keys of [start, end) that are open, one sub-revision each. */
    method DeleteRange(start: Key, end: Option<Key>) returns (r: Result<(int, int)>)
      requires Valid() && currentRev.main + 1 < TWO63 && |keyIndex.tree| < TWO63
      modifies this, keyIndex
      ensures Valid() && closed == old(closed)
      ensures start == [] || closed ==>
                r == Err(if start == [] then EmptyKey else Closed) && log == old(log) && currentRev == old(currentRev)
      ensures start != [] && !closed ==>
                var keys := RangeKeys(OpenKeys(old(keyIndex.tree)), start, end);
                if keys == [] then r == Ok((currentRev.main, 0)) && log == old(log) && currentRev == old(currentRev)
                else
                  var main := old(currentRev).main + 1;
                  r == Ok((main, |keys|)) && currentRev == Revision(main, |keys| - 1) && log == Tombstoned(old(log), keys, main, |keys|)
    {
      hide KvInv, MetaHolds, TombKv, RevBytes, DeleteTree, RangeKeys, Hits, HitKeys, OpenKeys;
      if start == [] {
        return Err(EmptyKey);
      }
      if closed {
        return Err(Closed);
      }
      var hits := keyIndex.Range(start, end, Zero);
      OpenHits(db, keyIndex.tree, log, currentRev, start, end);
      var keys := HitKeys(hits);
      if |keys| == 0 {
        return Ok((currentRev.main, 0));
      }
      ghost var was := currentRev;
      CurOk(db, currentRev);
      AllBelow(db, keyIndex.tree, log, currentRev);
      var main := currentRev.main + 1;
      currentRev := Revision(main, 0);
      Later(db, keyIndex.tree, log, was, currentRev);
      WriteTombstones(keys, was);
      currentRev := Revision(main, |keys| - 1);
      Later(db, keyIndex.tree, log, Revision(main, 0), currentRev);
      SaveCurrentRevision(was);
      return Ok((main, |keys|));
    }

    method WriteTombstones(keys: seq<Key>, ghost was: Revision)
      requires keyIndex.Valid() && KvInv(db, keyIndex.tree, log, currentRev) && MetaHolds(db, was)
      requires Sorted(keys) && |keys| < TWO63 && 1 <= currentRev.main < TWO63
      requires forall i :: 0 <= i < |log| ==> log[i].rev.LessThan(Revision(currentRev.main, 0))
      requires forall i :: 0 <= i < |keys| ==> keyIndex.Open(keys[i])
      modifies this`db, this`log, keyIndex
      ensures keyIndex.Valid() && KvInv(db, keyIndex.tree, log, currentRev) && MetaHolds(db, was)
      ensures log == Tombstoned(old(log), keys, currentRev.main, |keys|)
    {
      hide KvInv, MetaHolds, TombKv, DeleteTree, RevsIn, ItemOk;
      AllDistinct(keys);
      var main := currentRev.main;
      var i := 0;
      while i < |keys|
        invariant 0 <= i <= |keys|
        invariant keyIndex.Valid() && KvInv(db, keyIndex.tree, log, currentRev) && MetaHolds(db, was)
        invariant log == Tombstoned(old(log), keys, main, i)
        invariant forall j :: 0 <= j < |log| ==> log[j].rev.LessThan(Revision(main, i))
        invariant forall j :: i <= j < |keys| ==> keyIndex.Open(keys[j])
      {
        ghost var tree := keyIndex.tree;
        WriteTombstone(keys[i], Revision(main, i), was);
        forall j | i < j < |keys|
          ensures keyIndex.Open(keys[j])
        {
          StaysOpen(tree, keys[i], Revision(main, i), keys[j]);
        }
        i := i + 1;
      }
    }

    /** Persists the current revision. */
    method SaveCurrentRevision(ghost was: Revision)
      requires KvInv(db, keyIndex.tree, log, currentRev) && MetaHolds(db, was) && IsRev64(currentRev)
      modifies this`db
      ensures KvInv(db, keyIndex.tree, log, currentRev) && MetaHolds(db, currentRev)
    {
      hide HoldsLog, MetaHolds, LogFits, FoldMarks, RevBytes;
      HoldsMeta(db, log, currentRev, was);
      db := db[MetaCurrent := RevBytes(currentRev)];
    }

    /** Writes the tombstone of an open key, with the create revision of its newest stored version. */
    method WriteTombstone(key: Key, rev: Revision, ghost was: Revision)
      requires keyIndex.Valid() && keyIndex.Open(key) && KvInv(db, keyIndex.tree, log, currentRev) && MetaHolds(db, was)
      requires IsRev64(rev) && 1 <= rev.main <= currentRev.main
      requires forall i :: 0 <= i < |log| ==> log[i].rev.LessThan(rev)
      modifies this`db, this`log, keyIndex
      ensures keyIndex.Valid() && KvInv(db, keyIndex.tree, log, currentRev) && MetaHolds(db, was)
      ensures log == old(log) + [Entry(rev, TombKv(old(log), key, rev))]
      ensures keyIndex.tree == DeleteTree(old(keyIndex.tree), key, rev)
    {
      hide KvInv, MetaHolds, StorageKey, Encoding, Decoding, LastAt, RevsIn, DeleteTree, EntryFits;
      ghost var tree := keyIndex.tree;
      var g := keyIndex.tree[key].gens[|keyIndex.tree[key].gens| - 1];
      var prevKeyRev := g.revs[|g.revs| - 1];
      NewestRev(db, tree, log, currentRev, key, rev);
      PrevStored(db, tree, log, currentRev, key, rev, prevKeyRev);
      var createRev := 0;
      var x := StorageKey(key, prevKeyRev);
      if x in db {
        var prev := Decoding(db[x]);
        if prev.Some? {
          createRev := prev.value.createRev;
        }
      }
      var tombstone := KeyValue(key, [], createRev, rev.main, 0, 0);
      TombFits(log, key, rev);
      TombDone(db, tree, log, currentRev, Entry(rev, tombstone), was);
      db := db[StorageKey(key, rev) := Encoding(tombstone)];
      var _ := keyIndex.Delete(key, rev);
      log := log + [Entry(rev, tombstone)];
    }
  }

  function OpenKeys(tree: map<Key, KeyItem>): set<Key> {
    set k | k in tree && !tree[k].IsDeleted()
  }

  /** The log after tombstones for the first n keys, at (main, 0), (main, 1), ... */
  function Tombstoned(log: seq<Entry>, keys: seq<Key>, main: int, n: nat): seq<Entry>
    requires n <= |keys|
  {
    if n == 0 then log
    else
      var before := Tombstoned(log, keys, main, n - 1);
      var rev := Revision(main, n - 1);
      before + [Entry(rev, TombKv(before, keys[n - 1], rev))]
  }

  lemma StaysOpen(tree: map<Key, KeyItem>, key: Key, rev: Revision, k: Key)
    requires k != key && k in tree && !tree[k].IsDeleted()
    ensures k in DeleteTree(tree, key, rev) && !DeleteTree(tree, key, rev)[k].IsDeleted()
  {
  }

  /** A scan at Zero lists exactly the open keys of the interval, in order. */
  lemma OpenHits(db: Db, tree: map<Key, KeyItem>, log: seq<Entry>, cur: Revision, start: Key, end: Option<Key>)
    requires KvInv(db, tree, log, cur)
    ensures HitKeys(Hits(tree, RangeKeys(tree.Keys, start, end), Zero)) == RangeKeys(OpenKeys(tree), start, end)
    ensures Sorted(RangeKeys(OpenKeys(tree), start, end))
    ensures |RangeKeys(OpenKeys(tree), start, end)| <= |tree|
    ensures forall i :: 0 <= i < |RangeKeys(OpenKeys(tree), start, end)| ==>
              var k := RangeKeys(OpenKeys(tree), start, end)[i]; k in tree && !tree[k].IsDeleted()
  {
    hide KvInv;
    var ks := RangeKeys(tree.Keys, start, end);
    var s := set k | k in OpenKeys(tree) && InRange(k, start, end);
    HitsExact(tree, ks, Zero);
    forall k
      ensures k in HitKeys(Hits(tree, ks, Zero)) <==> k in s
    {
      if k in tree && !tree[k].IsDeleted() {
        OpenNotZero(db, tree, log, cur, k);
      }
    }
    AscendingUnique(HitKeys(Hits(tree, ks, Zero)), s);
    SubsetSize(s, tree.Keys);
    forall i | 0 <= i < |Ascending(s)|
      ensures Ascending(s)[i] in OpenKeys(tree)
    {
      assert Ascending(s)[i] in Ascending(s);
    }
  }

  lemma {:induction false} SubsetSize(a: set<Key>, b: set<Key>)
    requires a <= b
    ensures |a| <= |b|
  {
    if a != {} {
      var x :| x in a;
      SubsetSize(a - {x}, b - {x});
    }
  }

  /** An open key's newest revision is the newest one below any later revision. */
  lemma NewestRev(db: Db, tree: map<Key, KeyItem>, log: seq<Entry>, cur: Revision, key: Key, at: Revision)
    requires KvInv(db, tree, log, cur) && key in tree && !tree[key].IsDeleted()
    requires forall i :: 0 <= i < |log| ==> log[i].rev.LessThan(at)
    ensures RevAt(tree, key, Zero) != Zero && IsLatest(RevsIn(tree, key), at, RevAt(tree, key, Zero))
    ensures RevsIn(tree, key) != [] && RevsIn(tree, key)[|RevsIn(tree, key)| - 1].LessThan(at)
  {
    hide HoldsLog, FoldMarks, LogFits, KeyRevs, KvInv, StrictlyAscending;
    RevsAscend(db, tree, log, cur, key);
    OpenNotZero(db, tree, log, cur, key);
    LastOfOpen(tree[key]);
    var rs := RevsIn(tree, key);
    RevsBelow(db, tree, log, cur, key, at);
    assert rs[|rs| - 1] == RevAt(tree, key, Zero);
    LastIsLatest(rs, at);
  }

  lemma RevsBelow(db: Db, tree: map<Key, KeyItem>, log: seq<Entry>, cur: Revision, key: Key, at: Revision)
    requires KvInv(db, tree, log, cur) && forall i :: 0 <= i < |log| ==> log[i].rev.LessThan(at)
    ensures forall i :: 0 <= i < |RevsIn(tree, key)| ==> RevsIn(tree, key)[i].LessThan(at)
  {
    hide HoldsLog, FoldMarks, LogFits, KeyRevs;
    var rs := RevsIn(tree, key);
    assert rs == KeyRevs(log, key);
    forall i | 0 <= i < |rs|
      ensures rs[i].LessThan(at)
    {
      KeyRevsExact(log, key, rs[i]);
    }
  }

  lemma LastIsLatest(rs: seq<Revision>, at: Revision)
    requires rs != [] && StrictlyAscending(rs) && forall i :: 0 <= i < |rs| ==> rs[i].LessThan(at)
    ensures IsLatest(rs, at, rs[|rs| - 1])
  {
  }

  lemma OpenNotZero(db: Db, tree: map<Key, KeyItem>, log: seq<Entry>, cur: Revision, key: Key)
    requires KvInv(db, tree, log, cur) && key in tree && !tree[key].IsDeleted()
    ensures RevAt(tree, key, Zero) != Zero
  {
    hide HoldsLog, FoldMarks;
    LastOfOpen(tree[key]);
    assert RevsIn(tree, key) == KeyRevs(log, key);
    KeyRevsExact(log, key, RevAt(tree, key, Zero));
    LogNoZero(log);
  }

  lemma AllBelow(db: Db, tree: map<Key, KeyItem>, log: seq<Entry>, cur: Revision)
    requires KvInv(db, tree, log, cur)
    ensures forall i :: 0 <= i < |log| ==> log[i].rev.LessThan(Revision(cur.main + 1, 0))
  {
  }

  lemma Later(db: Db, tree: map<Key, KeyItem>, log: seq<Entry>, cur: Revision, cur': Revision)
    requires KvInv(db, tree, log, cur) && cur.main <= cur'.main
    ensures KvInv(db, tree, log, cur')
  {
  }

  lemma TombFits(log: seq<Entry>, key: Key, rev: Revision)
    requires LastAt(log, key, rev).Some? && EntryFits(LastAt(log, key, rev).value) && IsRev64(rev) && 1 <= rev.main
    requires LastAt(log, key, rev).value in log && forall i :: 0 <= i < |log| ==> log[i].rev.LessThan(rev)
    ensures EntryFits(Entry(rev, TombKv(log, key, rev)))
  {
    hide LastAt;
  }

  lemma TombDone(db: Db, tree: map<Key, KeyItem>, log: seq<Entry>, cur: Revision, e: Entry, was: Revision)
    requires KvInv(db, tree, log, cur) && MetaHolds(db, was) && e.kv.version == 0 && e.rev.main <= cur.main
    requires e.kv.key in tree && !tree[e.kv.key].IsDeleted()
    requires EntryFits(e) && forall i :: 0 <= i < |log| ==> log[i].rev.LessThan(e.rev)
    ensures var db' := db[StorageKey(e.kv.key, e.rev) := Encoding(e.kv)];
            KvInv(db', DeleteTree(tree, e.kv.key, e.rev), log + [e], cur) && MetaHolds(db', was)
  {
    hide HoldsLog, FoldMarks, MarksOf, StorageKey, Encoding, DeleteTree;
    FitsSnoc(log, e);
    KvStep(db, tree, log, cur, e, DeleteTree(tree, e.kv.key, e.rev));
    MetaKept(db, e.kv.key, e.rev, Encoding(e.kv), was);
  }

  lemma InDb(db: Db, xs: seq<seq<byte>>, i: nat)
    requires xs == Ascending(KvKeys(db)) && i < |xs|
    ensures xs[i] in db
  {
    assert xs[i] in xs;
  }

  lemma OneMore(db: Db, xs: seq<seq<byte>>, i: nat, compacted: Revision)
    requires i < |xs|
    ensures ScanMarks(db, xs[..i + 1], compacted) ==
            ScanMarks(db, xs[..i], compacted) +
            (if xs[i] in db && MarkAt(xs[i], db[xs[i]], compacted).Some? then [MarkAt(xs[i], db[xs[i]], compacted).value] else [])
    ensures xs[i] in db && MarkAt(xs[i], db[xs[i]], compacted).None? ==>
              ScanMarks(db, xs[..i + 1], compacted) == ScanMarks(db, xs[..i], compacted)
    ensures xs[i] in db && MarkAt(xs[i], db[xs[i]], compacted).Some? ==>
              FoldMarks(ScanMarks(db, xs[..i + 1], compacted)) ==
              var m := MarkAt(xs[i], db[xs[i]], compacted).value;
              if m.tombstone then DeleteTree(FoldMarks(ScanMarks(db, xs[..i], compacted)), m.key, m.rev)
              else PutTree(FoldMarks(ScanMarks(db, xs[..i], compacted)), m.key, m.rev)
  {
    hide MarkAt, DeleteTree, PutTree;
    assert xs[..i + 1][..i] == xs[..i];
    var ms := ScanMarks(db, xs[..i + 1], compacted);
    if xs[i] in db && MarkAt(xs[i], db[xs[i]], compacted).Some? {
      assert ms[..|ms| - 1] == ScanMarks(db, xs[..i], compacted);
    }
  }

  lemma CurOk(db: Db, cur: Revision)
    requires MetaHolds(db, cur)
    ensures IsRev64(cur)
  {
  }

  lemma RevsAscend(db: Db, tree: map<Key, KeyItem>, log: seq<Entry>, cur: Revision, key: Key)
    requires KvInv(db, tree, log, cur)
    ensures StrictlyAscending(RevsIn(tree, key))
    ensures forall i :: 0 <= i < |RevsIn(tree, key)| ==> RevsIn(tree, key)[i].main <= cur.main
  {
    hide HoldsLog, FoldMarks;
    assert RevsIn(tree, key) == KeyRevs(log, key);
    KeyRevsAscend(log, key);
    forall i | 0 <= i < |RevsIn(tree, key)|
      ensures RevsIn(tree, key)[i].main <= cur.main
    {
      KeyRevsExact(log, key, RevsIn(tree, key)[i]);
    }
  }

  /** A put at the next main revision keeps the invariant. */
  lemma PutDone(db: Db, tree: map<Key, KeyItem>, log: seq<Entry>, cur: Revision, e: Entry)
    requires KvInv(db, tree, log, cur) && MetaHolds(db, cur) && e.kv.version > 0
    requires e.rev == Revision(cur.main + 1, 0) && EntryFits(e)
    ensures var db' := db[StorageKey(e.kv.key, e.rev) := Encoding(e.kv)][MetaCurrent := RevBytes(e.rev)];
            KvInv(db', PutTree(tree, e.kv.key, e.rev), log + [e], e.rev) && MetaHolds(db', e.rev)
  {
    hide HoldsLog, FoldMarks, MarksOf, StorageKey, Encoding, RevBytes, PutTree;
    FitsSnoc(log, e);
    KvStep(db, tree, log, e.rev, e, PutTree(tree, e.kv.key, e.rev));
    MetaKept(db, e.kv.key, e.rev, Encoding(e.kv), cur);
    HoldsMeta(db[StorageKey(e.kv.key, e.rev) := Encoding(e.kv)], log + [e], e.rev, cur);
  }

  lemma MetaKept(db: Db, key: Key, rev: Revision, v: seq<byte>, cur: Revision)
    requires MetaHolds(db, cur)
    ensures MetaHolds(db[StorageKey(key, rev) := v], cur)
  {
    MetaOutsidePrefix();
    StorageKeyHasPrefix(key, rev);
  }

  lemma PutIndexOk(db: Db, tree: map<Key, KeyItem>, log: seq<Entry>, cur: Revision, key: Key, rev: Revision)
    requires KvInv(db, tree, log, cur) && cur.main < rev.main
    ensures RevsIn(tree, key) != [] ==> RevsIn(tree, key)[|RevsIn(tree, key)| - 1].LessThan(rev)
  {
    hide KvInv;
    RevsAscend(db, tree, log, cur, key);
  }

  // ---------------------------------------------------------------- restart

  lemma EmptyStore(db: Db)
    requires db == map[]
    ensures KvInv(db, map[], [], Zero) && MetaHolds(db, Zero) && ScanMarks(db, Ascending(KvKeys(db)), Zero) == []
  {
    assert KvKeys(db) == {};
    assert Ascending({}) == [];
    assert MarksOf([]) == [];
  }

  method NewStore() returns (s: RocksStore)
    ensures fresh(s) && fresh(s.keyIndex) && s.Valid() && s.log == [] && s.currentRev == Zero && !s.closed
  {
    hide KvInv, MetaHolds, ScanMarks, KvKeys, Ascending;
    s := new RocksStore(map[]);
    EmptyStore(map[]);
    LoadedMeta(map[], Zero);
  }

  /** Reopening the database of a running store gives the same index and the same revisions. */
  method Restart(s: RocksStore) returns (t: RocksStore)
    requires s.Valid()
    ensures fresh(t) && t.Valid() && t.db == s.db && t.log == s.log
    ensures t.keyIndex.tree == s.keyIndex.tree
    ensures t.currentRev == s.currentRev && t.compactedRev == s.compactedRev
  {
    hide MetaHolds, HoldsLog, LogFits, ScanMarks, KvKeys, FoldMarks, MarksOf, LoadRev;
    t := new RocksStore(s.db);
    LoadedMeta(s.db, s.currentRev);
    RestartEquivalence(s.db, s.log);
    t.log := s.log;
  }
}

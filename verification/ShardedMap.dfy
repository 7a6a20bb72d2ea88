/** The sharded map: an array of plain maps that together represent one. */
module ShardedMaps {
  import opened Bytes
  import opened EtcdSpec

  const NUM_SHARDS: nat := 512

  // ---------------------------------------------------------------- sorting by key

  predicate KeysAscend(kvs: seq<KeyValue>) {
    forall i, j :: 0 <= i < j < |kvs| ==> Leq(kvs[i].key, kvs[j].key)
  }

  lemma LeqTransitive(a: Key, b: Key, c: Key)
    requires Leq(a, b) && Leq(b, c)
    ensures Leq(a, c)
  {
    if a != b && b != c {
      LessTransitive(a, b, c);
    }
  }

  method Insert(kvs: seq<KeyValue>, x: KeyValue) returns (r: seq<KeyValue>)
    requires KeysAscend(kvs)
    ensures KeysAscend(r) && multiset(r) == multiset(kvs) + multiset{x}
  {
    hide Less;
    var i := 0;
    while i < |kvs| && Leq(kvs[i].key, x.key)
      invariant 0 <= i <= |kvs| && forall j :: 0 <= j < i ==> Leq(kvs[j].key, x.key)
    {
      i := i + 1;
    }
    r := kvs[..i] + [x] + kvs[i..];
    assert kvs == kvs[..i] + kvs[i..];
    forall a, b | 0 <= a < b < |r|
      ensures Leq(r[a].key, r[b].key)
    {
      if i < |kvs| {
        LeqTotal(kvs[i].key, x.key);
        if a == i && i + 1 < b {
          LeqTransitive(x.key, kvs[i].key, kvs[b - 1].key);
        }
      }
    }
  }

  lemma LeqTotal(a: Key, b: Key)
    ensures Leq(a, b) || Leq(b, a)
  {
    LessTotal(a, b);
  }

  method SortByKey(kvs: seq<KeyValue>) returns (r: seq<KeyValue>)
    ensures KeysAscend(r) && multiset(r) == multiset(kvs)
  {
    r := [];
    var i := 0;
    while i < |kvs|
      invariant 0 <= i <= |kvs| && KeysAscend(r) && multiset(r) == multiset(kvs[..i])
    {
      assert kvs[..i + 1] == kvs[..i] + [kvs[i]];
      r := Insert(r, kvs[i]);
      i := i + 1;
    }
    assert kvs[..i] == kvs;
  }

  // ---------------------------------------------------------------- collected entries

  /** kvs lists each entry of m inside the interval exactly once, in any order. */
  ghost predicate Collected(kvs: seq<KeyValue>, m: map<Key, KeyValue>, start: Key, end: Key) {
    && (forall kv :: kv in kvs ==> kv.key in m && m[kv.key] == kv && InInterval(kv.key, start, end))
    && (forall k :: k in m && InInterval(k, start, end) ==> m[k] in kvs)
    && (forall i, j :: 0 <= i < j < |kvs| ==> kvs[i].key != kvs[j].key)
  }

  predicate Distinct(names: seq<Key>) {
    forall i, j :: 0 <= i < j < |names| ==> names[i] != names[j]
  }

  /** names lists the keys of the interval, each once, and kvs what is stored under them. */
  ghost predicate Listed(kvs: seq<KeyValue>, names: seq<Key>, m: map<Key, KeyValue>, start: Key, end: Key) {
    && |names| == |kvs| && Distinct(names)
    && (forall i :: 0 <= i < |kvs| ==> names[i] in m && kvs[i] == m[names[i]] && InInterval(names[i], start, end))
    && (forall k :: k in m && InInterval(k, start, end) ==> k in names)
  }

  /** What a range query may answer: what is stored in the interval, by the keys the entries carry, cut
      to the limit. Entries that carry the same key may come in any order. */
  ghost predicate IsRange(kvs: seq<KeyValue>, m: map<Key, KeyValue>, start: Key, end: Key, limit: int) {
    exists all, names, listed ::
      Listed(listed, names, m, start, end) && KeysAscend(all) && multiset(all) == multiset(listed) && kvs == Cut(all, limit)
  }

  lemma ListedIsCollected(kvs: seq<KeyValue>, names: seq<Key>, m: map<Key, KeyValue>, start: Key, end: Key)
    requires Listed(kvs, names, m, start, end) && Keyed(m)
    ensures Collected(kvs, m, start, end)
  {
    hide InInterval;
    forall k | k in m && InInterval(k, start, end)
      ensures m[k] in kvs
    {
      var i :| 0 <= i < |names| && names[i] == k;
      assert kvs[i] == m[k];
    }
  }

  lemma {:induction false} DistinctMultiset(kvs: seq<KeyValue>, i: nat, j: nat)
    requires i < j < |kvs| && kvs[i] == kvs[j]
    ensures multiset(kvs)[kvs[i]] >= 2
  {
    var a, b := kvs[..j], kvs[j..];
    assert kvs == a + b && a[i] == kvs[i] && b[0] == kvs[j];
    assert kvs[i] in multiset(a) && kvs[i] in multiset(b);
  }

  lemma {:induction false} OnceInMultiset(kvs: seq<KeyValue>, x: KeyValue)
    requires forall i, j :: 0 <= i < j < |kvs| ==> kvs[i].key != kvs[j].key
    ensures multiset(kvs)[x] <= 1
  {
    if kvs != [] {
      var n := |kvs| - 1;
      OnceInMultiset(kvs[..n], x);
      assert kvs == kvs[..n] + [kvs[n]];
      if kvs[n] == x {
        assert x !in kvs[..n];
      }
    }
  }

  /** Sorting the collected entries gives the ascending listing of the interval. */
  lemma SortedCollected(kvs: seq<KeyValue>, r: seq<KeyValue>, m: map<Key, KeyValue>, start: Key, end: Key)
    requires Collected(kvs, m, start, end) && KeysAscend(r) && multiset(r) == multiset(kvs) && Keyed(m)
    ensures RangeOf(m, start, end, 0) == r
  {
    hide Less, InInterval;
    var ks := seq(|r|, i requires 0 <= i < |r| => r[i].key);
    forall i | 0 <= i < |r|
      ensures r[i] in kvs
    {
      assert r[i] in multiset(r);
    }
    forall i, j | 0 <= i < j < |r|
      ensures Less(ks[i], ks[j])
    {
      if r[i].key == r[j].key {
        assert r[i] == m[r[i].key] == r[j];
        DistinctMultiset(r, i, j);
        OnceInMultiset(kvs, r[i]);
      }
    }
    var s := set k | k in m && InInterval(k, start, end);
    forall k
      ensures k in ks <==> k in s
    {
      if k in ks {
        var i :| 0 <= i < |r| && ks[i] == k;
        assert r[i] in kvs;
      }
      if k in s {
        assert m[k] in kvs;
        assert m[k] in multiset(r);
        var i :| 0 <= i < |r| && r[i] == m[k];
        assert ks[i] == k;
      }
    }
    AscendingUnique(ks, s);
    IntervalKeysPresent(m, start, end);
    assert IntervalKeys(m, start, end) == ks;
    assert ValuesOf(m, ks) == r;
  }

  // ---------------------------------------------------------------- shards

  /** FNV-1a over the bytes of the key, 32 bits wide. */
  function Fnv1a(key: Key): bv32 {
    if key == [] then 2166136261
    else (Fnv1a(key[..|key| - 1]) ^ (key[|key| - 1] as bv32)) * 16777619
  }

  function GetShard(key: Key): (i: nat)
    ensures i < NUM_SHARDS
  {
    var masked := Fnv1a(key) & 511;
    assert masked < 512;
    masked as nat
  }

  /** Two keys of one byte in different shards. */
  lemma ZeroAndOneApart()
    ensures GetShard([0]) != GetShard([1])
  {
    assert [0][..0] == [] && [1][..0] == [];
    assert Fnv1a([0]) == (2166136261 ^ 0) * 16777619;
    assert Fnv1a([1]) == (2166136261 ^ 1) * 16777619;
    var m0, m1 := Fnv1a([0]) & 511, Fnv1a([1]) & 511;
    assert m0 == 287 && m1 == 396;
    assert m0 as nat == 287 && m1 as nat == 396;
  }

  /** shard holds exactly the entries of m whose shard number is i. */
  ghost predicate IsShard(shard: map<Key, KeyValue>, m: map<Key, KeyValue>, i: nat) {
    && (forall k :: k in shard <==> k in m && GetShard(k) == i)
    && (forall k :: k in shard ==> shard[k] == m[k])
  }

  /** The shards partition m by shard number. */
  ghost predicate Partition(shards: seq<map<Key, KeyValue>>, m: map<Key, KeyValue>) {
    |shards| == NUM_SHARDS && forall i :: 0 <= i < NUM_SHARDS ==> IsShard(shards[i], m, i)
  }

  lemma PartitionAt(shards: seq<map<Key, KeyValue>>, m: map<Key, KeyValue>, k: Key)
    requires Partition(shards, m)
    ensures Lookup(shards[GetShard(k)], k) == Lookup(m, k)
  {
    assert IsShard(shards[GetShard(k)], m, GetShard(k));
  }

  lemma PartitionSet(shards: seq<map<Key, KeyValue>>, m: map<Key, KeyValue>, k: Key, kv: KeyValue)
    requires Partition(shards, m)
    ensures Partition(shards[GetShard(k) := shards[GetShard(k)][k := kv]], m[k := kv])
  {
    hide GetShard, IsShard;
    var after := shards[GetShard(k) := shards[GetShard(k)][k := kv]];
    forall i | 0 <= i < NUM_SHARDS
      ensures IsShard(after[i], m[k := kv], i)
    {
      ShardSet(shards[i], m, i, k, kv);
    }
  }

  lemma ShardSet(shard: map<Key, KeyValue>, m: map<Key, KeyValue>, i: nat, k: Key, kv: KeyValue)
    requires IsShard(shard, m, i)
    ensures IsShard(if i == GetShard(k) then shard[k := kv] else shard, m[k := kv], i)
  {
    hide GetShard;
  }

  lemma PartitionDelete(shards: seq<map<Key, KeyValue>>, m: map<Key, KeyValue>, k: Key)
    requires Partition(shards, m)
    ensures Partition(shards[GetShard(k) := shards[GetShard(k)] - {k}], m - {k})
  {
    hide GetShard, IsShard;
    var after := shards[GetShard(k) := shards[GetShard(k)] - {k}];
    forall i | 0 <= i < NUM_SHARDS
      ensures IsShard(after[i], m - {k}, i)
    {
      ShardDelete(shards[i], m, i, k);
    }
  }

  lemma ShardDelete(shard: map<Key, KeyValue>, m: map<Key, KeyValue>, i: nat, k: Key)
    requires IsShard(shard, m, i)
    ensures IsShard(if i == GetShard(k) then shard - {k} else shard, m - {k}, i)
  {
    hide GetShard;
  }

  /** The entries of m that live in the first n shards. */
  ghost function Below(m: map<Key, KeyValue>, n: nat): map<Key, KeyValue> {
    map k | k in m && GetShard(k) < n :: m[k]
  }

  lemma BelowNext(shard: map<Key, KeyValue>, m: map<Key, KeyValue>, n: nat)
    requires IsShard(shard, m, n)
    ensures Below(m, n + 1) == Below(m, n) + shard
    ensures Below(m, n).Keys !! shard.Keys
  {
    hide GetShard;
  }

  lemma BelowSize(shard: map<Key, KeyValue>, m: map<Key, KeyValue>, n: nat)
    requires IsShard(shard, m, n)
    ensures |Below(m, n + 1)| == |Below(m, n)| + |shard|
  {
    hide GetShard, Below, IsShard;
    BelowNext(shard, m, n);
    SumOfSizes(Below(m, n), shard);
  }

  lemma SumOfSizes(a: map<Key, KeyValue>, b: map<Key, KeyValue>)
    requires a.Keys !! b.Keys
    ensures |a + b| == |a| + |b|
  {
    assert (a + b).Keys == a.Keys + b.Keys;
    assert |(a + b).Keys| == |a + b| && |a.Keys| == |a| && |b.Keys| == |b|;
  }

  lemma BelowAll(shards: seq<map<Key, KeyValue>>, m: map<Key, KeyValue>)
    requires Partition(shards, m)
    ensures Below(m, NUM_SHARDS) == m && Below(m, 0) == map[]
  {
  }

  lemma NothingListed(start: Key, end: Key)
    ensures Listed([], [], map[], start, end)
  {
  }

  lemma DistinctJoin(xs: seq<Key>, ys: seq<Key>, m: set<Key>, n: set<Key>)
    requires Distinct(xs) && Distinct(ys) && m !! n
    requires (forall x :: x in xs ==> x in m) && forall y :: y in ys ==> y in n
    ensures Distinct(xs + ys)
  {
    var r := xs + ys;
    forall i, j | 0 <= i < j < |r|
      ensures r[i] != r[j]
    {
      if i < |xs| <= j {
        assert xs[i] in xs && ys[j - |xs|] in ys;
      }
    }
  }

  lemma ListedJoin(a: seq<KeyValue>, xs: seq<Key>, b: seq<KeyValue>, ys: seq<Key>, m: map<Key, KeyValue>,
                   n: map<Key, KeyValue>, start: Key, end: Key)
    requires Listed(a, xs, m, start, end) && Listed(b, ys, n, start, end)
    requires m.Keys !! n.Keys
    ensures Listed(a + b, xs + ys, m + n, start, end)
  {
    hide InInterval, Distinct;
    var kvs, names, both := a + b, xs + ys, m + n;
    DistinctJoin(xs, ys, m.Keys, n.Keys);
    forall i | 0 <= i < |kvs|
      ensures names[i] in both && kvs[i] == both[names[i]] && InInterval(names[i], start, end)
    {
      if i < |a| {
        assert names[i] == xs[i] && kvs[i] == a[i] && xs[i] in m.Keys;
      } else {
        assert names[i] == ys[i - |a|] && kvs[i] == b[i - |a|];
      }
    }
    forall k | k in both && InInterval(k, start, end)
      ensures k in names
    {
      assert k in m || k in n;
    }
  }

  /** Walks one shard in any order and keeps what lies in the interval. */
  method CollectShard(shard: map<Key, KeyValue>, start: Key, end: Key) returns (kvs: seq<KeyValue>, ghost names: seq<Key>)
    ensures Listed(kvs, names, shard, start, end)
  {
    hide InInterval;
    kvs, names := [], [];
    var todo := shard.Keys;
    while todo != {}
      invariant todo <= shard.Keys
      invariant Listed(kvs, names, shard - todo, start, end)
      decreases |todo|
    {
      var k :| k in todo;
      todo := todo - {k};
      if InInterval(k, start, end) {
        kvs, names := kvs + [shard[k]], names + [k];
      }
      assert forall j :: j in shard - todo <==> j in shard && j !in todo;
    }
    assert shard - todo == shard;
  }

  lemma RangeFound(all: seq<KeyValue>, names: seq<Key>, listed: seq<KeyValue>, m: map<Key, KeyValue>, start: Key, end: Key, limit: int)
    requires Listed(listed, names, m, start, end) && KeysAscend(all) && multiset(all) == multiset(listed)
    ensures IsRange(Cut(all, limit), m, start, end, limit)
  {
  }

  lemma RangeCut(all: seq<KeyValue>, m: map<Key, KeyValue>, start: Key, end: Key, limit: int)
    requires IsRange(all, m, start, end, 0)
    ensures IsRange(Cut(all, limit), m, start, end, limit)
  {
    hide Listed, KeysAscend;
  }

  class ShardedMap {
    const shards: array<map<Key, KeyValue>>
    ghost var contents: map<Key, KeyValue>

    ghost predicate Valid()
      reads this, shards
    {
      shards.Length == NUM_SHARDS && Partition(shards[..], contents)
    }

    constructor ()
      ensures Valid() && fresh(shards) && contents == map[]
    {
      shards := new map<Key, KeyValue>[NUM_SHARDS](_ => map[]);
      contents := map[];
    }

    method Get(key: Key) returns (kv: Option<KeyValue>)
      requires Valid()
      ensures kv == Lookup(contents, key)
    {
      hide GetShard;
      PartitionAt(shards[..], contents, key);
      kv := Lookup(shards[GetShard(key)], key);
    }

    method Set(key: Key, kv: KeyValue)
      requires Valid()
      modifies this, shards
      ensures Valid() && contents == old(contents)[key := kv]
    {
      hide Partition, GetShard;
      PartitionSet(shards[..], contents, key, kv);
      var i := GetShard(key);
      shards[i] := shards[i][key := kv];
      contents := contents[key := kv];
      assert shards[..] == old(shards[..])[i := old(shards[..])[i][key := kv]];
    }

    method Delete(key: Key)
      requires Valid()
      modifies this, shards
      ensures Valid() && contents == old(contents) - {key}
    {
      hide Partition, GetShard;
      PartitionDelete(shards[..], contents, key);
      var i := GetShard(key);
      shards[i] := shards[i] - {key};
      contents := contents - {key};
      assert shards[..] == old(shards[..])[i := old(shards[..])[i] - {key}];
    }

    method Range(startKey: Key, endKey: Key, limit: int) returns (kvs: seq<KeyValue>)
      requires Valid()
      ensures IsRange(kvs, contents, startKey, endKey, limit)
      ensures Keyed(contents) ==> kvs == RangeOf(contents, startKey, endKey, limit)
    {
      hide Less, GetShard, InInterval, IntervalKeys, Below, Listed, Collected, KeysAscend, IsShard, Keyed;
      var all: seq<KeyValue> := [];
      ghost var names: seq<Key> := [];
      var i := 0;
      BelowAll(shards[..], contents);
      NothingListed(startKey, endKey);
      while i < NUM_SHARDS
        invariant 0 <= i <= NUM_SHARDS
        invariant Listed(all, names, Below(contents, i), startKey, endKey)
      {
        assert IsShard(shards[..][i], contents, i);
        BelowNext(shards[i], contents, i);
        var part, more := CollectShard(shards[i], startKey, endKey);
        ListedJoin(all, names, part, more, Below(contents, i), shards[i], startKey, endKey);
        all, names := all + part, names + more;
        i := i + 1;
      }
      kvs := SortByKey(all);
      if Keyed(contents) {
        ListedIsCollected(all, names, contents, startKey, endKey);
        SortedCollected(all, kvs, contents, startKey, endKey);
      }
      RangeFound(kvs, names, all, contents, startKey, endKey, limit);
      if 0 < limit < |kvs| {
        kvs := kvs[..limit];
      }
    }

    /**
     * Calls fn on the entries of the interval in key order until fn says stop or the limit is
     * reached; visited is the list of entries handed to fn.
     */
    method RangeFunc(startKey: Key, endKey: Key, limit: int, fn: KeyValue -> bool)
      returns (visited: seq<KeyValue>, ghost range: seq<KeyValue>)
      requires Valid()
      ensures IsRange(range, contents, startKey, endKey, limit)
      ensures Keyed(contents) ==> range == RangeOf(contents, startKey, endKey, limit)
      ensures visited <= range
      ensures forall i :: 0 <= i < |visited| - 1 ==> fn(visited[i])
      ensures |visited| < |range| ==> visited != [] && !fn(visited[|visited| - 1])
    {
      hide Less, IntervalKeys, Partition, IsRange, Keyed;
      var all := Range(startKey, endKey, 0);
      range := Cut(all, limit);
      RangeCut(all, contents, startKey, endKey, limit);
      visited := [];
      while |visited| < |all|
        invariant visited <= all && (limit > 0 ==> |visited| <= limit)
        invariant forall i :: 0 <= i < |visited| ==> fn(visited[i])
      {
        if limit > 0 && |visited| >= limit {
          return;
        }
        var kv := all[|visited|];
        visited := visited + [kv];
        if !fn(kv) {
          return;
        }
      }
    }

    method Len() returns (total: nat)
      requires Valid()
      ensures total == |contents|
    {
      hide GetShard, IsShard, Below;
      total := 0;
      var i := 0;
      BelowAll(shards[..], contents);
      while i < NUM_SHARDS
        invariant 0 <= i <= NUM_SHARDS && total == |Below(contents, i)|
      {
        assert IsShard(shards[..][i], contents, i);
        BelowSize(shards[i], contents, i);
        total := total + |shards[i]|;
        i := i + 1;
      }
    }

    method GetAll() returns (data: map<Key, KeyValue>)
      requires Valid()
      ensures data == contents
    {
      hide GetShard, IsShard, Below;
      data := map[];
      var i := 0;
      BelowAll(shards[..], contents);
      while i < NUM_SHARDS
        invariant 0 <= i <= NUM_SHARDS && data == Below(contents, i)
      {
        assert IsShard(shards[..][i], contents, i);
        BelowNext(shards[i], contents, i);
        data := data + shards[i];
        i := i + 1;
      }
    }

    method Clear()
      requires Valid()
      modifies this, shards
      ensures Valid() && contents == map[]
    {
      var i := 0;
      while i < NUM_SHARDS
        invariant 0 <= i <= NUM_SHARDS && shards.Length == NUM_SHARDS
        invariant forall j :: 0 <= j < i ==> shards[j] == map[]
      {
        shards[i] := map[];
        i := i + 1;
      }
      contents := map[];
    }

    method SetAll(data: map<Key, KeyValue>)
      requires Valid()
      modifies this, shards
      ensures Valid() && contents == data
    {
      hide Partition, GetShard;
      Clear();
      var todo := data.Keys;
      while todo != {}
        invariant todo <= data.Keys && Valid() && contents == data - todo
        decreases |todo|
      {
        var k :| k in todo;
        Set(k, data[k]);
        todo := todo - {k};
        assert contents == data - todo;
      }
    }
  }

}

/** The in-memory revision index: per key a list of generations, each a list of revisions. */
module KeyIndexes {
  import opened Bytes
  import opened Revisions
  import opened MvccSpec

  datatype Generation = Generation(created: Revision, revs: seq<Revision>)

  datatype KeyItem = KeyItem(gens: seq<Generation>, modified: Revision) {
    predicate IsDeleted() {
      gens == [] || gens[|gens| - 1].revs == []
    }
  }

  /** All revisions of an item, generation after generation. */
  function Flat(gens: seq<Generation>): seq<Revision>
  {
    if gens == [] then [] else Flat(gens[..|gens| - 1]) + gens[|gens| - 1].revs
  }

  predicate GenOk(g: Generation) {
    StrictlyAscending(g.revs) && forall i :: 0 <= i < |g.revs| ==> g.created.AtMost(g.revs[i])
  }

  predicate ItemOk(item: KeyItem) {
    Flat(item.gens) != [] && forall i :: 0 <= i < |item.gens| ==> GenOk(item.gens[i])
  }

  // ---------------------------------------------------------------- lookup

  /** The last element at or below `at`. */
  function LatestIn(revs: seq<Revision>, at: Revision): Revision
  {
    if revs == [] then Zero
    else if revs[|revs| - 1].AtMost(at) then revs[|revs| - 1]
    else LatestIn(revs[..|revs| - 1], at)
  }

  predicate SomeAtMost(revs: seq<Revision>, at: Revision) {
    exists i :: 0 <= i < |revs| && revs[i].AtMost(at)
  }

  /** What FindRevision computes: newest generation first, skipping those created later. */
  function Find(gens: seq<Generation>, at: Revision): Revision
  {
    if gens == [] then Zero
    else
      var g := gens[|gens| - 1];
      if g.created.AtMost(at) && SomeAtMost(g.revs, at) then LatestIn(g.revs, at)
      else Find(gens[..|gens| - 1], at)
  }

  method BinarySearchRevision(revs: seq<Revision>, target: Revision) returns (result: int)
    requires StrictlyAscending(revs)
    ensures -1 <= result < |revs|
    ensures forall i :: 0 <= i < |revs| ==> (revs[i].AtMost(target) <==> i <= result)
  {
    var left, right := 0, |revs| - 1;
    result := -1;
    while left <= right
      invariant 0 <= left && right < |revs| && left <= right + 1
      invariant result == left - 1
      invariant forall i :: 0 <= i < left ==> revs[i].AtMost(target)
      invariant forall i :: right < i < |revs| ==> !revs[i].AtMost(target)
    {
      var mid := (left + right) / 2;
      if revs[mid].AtMost(target) {
        result := mid;
        left := mid + 1;
      } else {
        right := mid - 1;
      }
    }
  }

  lemma {:induction false} LatestInAt(revs: seq<Revision>, at: Revision, k: int)
    requires -1 <= k < |revs|
    requires forall i :: 0 <= i < |revs| ==> (revs[i].AtMost(at) <==> i <= k)
    ensures LatestIn(revs, at) == if k < 0 then Zero else revs[k]
  {
    if k < |revs| - 1 {
      LatestInAt(revs[..|revs| - 1], at, k);
    }
  }

  method FindRevision(item: KeyItem, at: Revision) returns (r: Revision)
    requires forall i :: 0 <= i < |item.gens| ==> GenOk(item.gens[i])
    ensures r == Find(item.gens, at)
  {
    var gens := item.gens;
    var i := |gens| - 1;
    assert gens[..i + 1] == gens;
    while i >= 0
      invariant -1 <= i < |gens|
      invariant Find(gens, at) == Find(gens[..i + 1], at)
    {
      var g := gens[i];
      assert gens[..i + 1][..i] == gens[..i];
      if !at.LessThan(g.created) {
        var idx := BinarySearchRevision(g.revs, at);
        LatestInAt(g.revs, at, idx);
        if idx >= 0 {
          return g.revs[idx];
        }
      }
      i := i - 1;
    }
    return Zero;
  }

  lemma {:induction false} LatestInIsLatest(revs: seq<Revision>, at: Revision)
    requires StrictlyAscending(revs)
    ensures IsLatest(revs, at, LatestIn(revs, at))
  {
    if revs != [] {
      var n := |revs| - 1;
      LatestInIsLatest(revs[..n], at);
      assert forall i :: 0 <= i < n ==> revs[..n][i] == revs[i];
    }
  }

  lemma LatestOfSuffix(a: seq<Revision>, b: seq<Revision>, at: Revision, r: Revision)
    requires StrictlyAscending(a + b)
    requires if SomeAtMost(b, at) then IsLatest(b, at, r) else IsLatest(a, at, r)
    ensures IsLatest(a + b, at, r)
  {
    var c := a + b;
    assert forall i :: 0 <= i < |a| ==> c[i] == a[i];
    assert forall i :: 0 <= i < |b| ==> c[|a| + i] == b[i];
    if SomeAtMost(b, at) {
      assert SomeAtMost(c, at) by {
        var i :| 0 <= i < |b| && b[i].AtMost(at);
        assert c[|a| + i].AtMost(at);
      }
      var j :| 0 <= j < |b| && b[j] == r;
      assert c[|a| + j] == r;
    } else if SomeAtMost(a, at) {
      var i :| 0 <= i < |a| && a[i].AtMost(at);
      assert c[i].AtMost(at);
    }
  }

  /** FindRevision returns the greatest retained revision at or below its argument. */
  lemma {:induction false} FindIsLatest(gens: seq<Generation>, at: Revision)
    requires forall i :: 0 <= i < |gens| ==> GenOk(gens[i])
    requires StrictlyAscending(Flat(gens))
    ensures IsLatest(Flat(gens), at, Find(gens, at))
  {
    if gens != [] {
      var front, g := gens[..|gens| - 1], gens[|gens| - 1];
      assert StrictlyAscending(Flat(front)) by {
        assert forall i :: 0 <= i < |Flat(front)| ==> Flat(gens)[i] == Flat(front)[i];
      }
      FindIsLatest(front, at);
      if SomeAtMost(g.revs, at) {
        LatestInIsLatest(g.revs, at);
        var i :| 0 <= i < |g.revs| && g.revs[i].AtMost(at);
        assert g.created.AtMost(at);
      }
      LatestOfSuffix(Flat(front), g.revs, at, Find(gens, at));
    }
  }

  lemma {:induction false} LatestInConcat(a: seq<Revision>, b: seq<Revision>, at: Revision)
    ensures LatestIn(a + b, at) == if SomeAtMost(b, at) then LatestIn(b, at) else LatestIn(a, at)
  {
    if b == [] {
      assert a + b == a;
    } else {
      var n := |b| - 1;
      assert (a + b)[..|a + b| - 1] == a + b[..n];
      LatestInConcat(a, b[..n], at);
      assert SomeAtMost(b, at) <==> b[n].AtMost(at) || SomeAtMost(b[..n], at) by {
        if SomeAtMost(b[..n], at) {
          var i :| 0 <= i < n && b[..n][i].AtMost(at);
          assert b[i].AtMost(at);
        }
        if SomeAtMost(b, at) && !b[n].AtMost(at) {
          var i :| 0 <= i < |b| && b[i].AtMost(at);
          assert b[..n][i].AtMost(at);
        }
      }
    }
  }

  /** In every well-formed item, revisions in order or not, the search finds the last listed one it may see. */
  lemma {:induction false} FindIsLastListed(gens: seq<Generation>, at: Revision)
    requires forall i :: 0 <= i < |gens| ==> GenOk(gens[i])
    ensures Find(gens, at) == LatestIn(Flat(gens), at)
  {
    if gens != [] {
      var front, g := gens[..|gens| - 1], gens[|gens| - 1];
      FindIsLastListed(front, at);
      LatestInConcat(Flat(front), g.revs, at);
      if SomeAtMost(g.revs, at) {
        var i :| 0 <= i < |g.revs| && g.revs[i].AtMost(at);
        assert g.created.AtMost(at);
      }
    }
  }

  // ---------------------------------------------------------------- compaction of one item

  function KeepFrom(revs: seq<Revision>, at: Revision): seq<Revision>
  {
    if revs == [] then []
    else KeepFrom(revs[..|revs| - 1], at) + (if revs[|revs| - 1].LessThan(at) then [] else [revs[|revs| - 1]])
  }

  lemma {:induction false} KeepFromConcat(a: seq<Revision>, b: seq<Revision>, at: Revision)
    ensures KeepFrom(a + b, at) == KeepFrom(a, at) + KeepFrom(b, at)
  {
    if b == [] {
      assert a + b == a;
    } else {
      assert (a + b)[..|a + b| - 1] == a + b[..|b| - 1];
      KeepFromConcat(a, b[..|b| - 1], at);
    }
  }

  /** Where the first n elements are below `at` and the rest are not, keeping means dropping n. */
  lemma {:induction false} KeepFromSuffix(revs: seq<Revision>, at: Revision, n: nat)
    requires n <= |revs|
    requires forall i :: 0 <= i < |revs| ==> (revs[i].LessThan(at) <==> i < n)
    ensures KeepFrom(revs, at) == revs[n..]
  {
    if revs != [] {
      var m := |revs| - 1;
      if n <= m {
        KeepFromSuffix(revs[..m], at, n);
        assert revs[n..] == revs[..m][n..] + [revs[m]];
      } else {
        KeepFromSuffix(revs[..m], at, m);
      }
    }
  }

  method CompactGeneration(g: Generation, at: Revision) returns (kept: seq<Revision>, dropped: nat)
    requires GenOk(g)
    ensures kept == KeepFrom(g.revs, at) && dropped + |kept| == |g.revs|
    ensures kept == g.revs[dropped..]
  {
    var keepFrom := 0;
    while keepFrom < |g.revs| && g.revs[keepFrom].LessThan(at)
      invariant 0 <= keepFrom <= |g.revs|
      invariant forall i :: 0 <= i < keepFrom ==> g.revs[i].LessThan(at)
    {
      keepFrom := keepFrom + 1;
    }
    KeepFromSuffix(g.revs, at, keepFrom);
    return g.revs[keepFrom..], keepFrom;
  }

  lemma FlatSnoc(gens: seq<Generation>, g: Generation)
    ensures Flat(gens + [g]) == Flat(gens) + g.revs
  {
    assert (gens + [g])[..|gens|] == gens;
  }

  lemma NothingFlat(at: Revision)
    ensures Flat([]) == [] && KeepFrom([], at) == []
  {
  }

  lemma SuffixOk(g: Generation, n: nat)
    requires GenOk(g) && n <= |g.revs|
    ensures g.revs[n..] != [] ==> GenOk(Generation(g.created, g.revs[n..]))
  {
  }

  /** Drops the revisions below `at`, and with them every generation left without revisions. */
  method CompactItem(item: KeyItem, at: Revision) returns (gens: seq<Generation>, removed: nat)
    requires forall i :: 0 <= i < |item.gens| ==> GenOk(item.gens[i])
    ensures Flat(gens) == KeepFrom(Flat(item.gens), at)
    ensures removed + |Flat(gens)| == |Flat(item.gens)|
    ensures forall i :: 0 <= i < |gens| ==> GenOk(gens[i]) && gens[i].revs != []
  {
    hide Flat, KeepFrom, StrictlyAscending;
    gens, removed := [], 0;
    var i := 0;
    NothingFlat(at);
    assert item.gens[..0] == [];
    while i < |item.gens|
      invariant 0 <= i <= |item.gens|
      invariant Flat(gens) == KeepFrom(Flat(item.gens[..i]), at)
      invariant removed + |Flat(gens)| == |Flat(item.gens[..i])|
      invariant forall j :: 0 <= j < |gens| ==> GenOk(gens[j]) && gens[j].revs != []
    {
      var g := item.gens[i];
      var kept, dropped := CompactGeneration(g, at);
      assert item.gens[..i + 1] == item.gens[..i] + [g];
      FlatSnoc(item.gens[..i], g);
      KeepFromConcat(Flat(item.gens[..i]), g.revs, at);
      SuffixOk(g, dropped);
      removed := removed + dropped;
      if kept != [] {
        FlatSnoc(gens, Generation(g.created, kept));
        gens := gens + [Generation(g.created, kept)];
      }
      i := i + 1;
    }
    assert item.gens[..i] == item.gens;
  }

  // ---------------------------------------------------------------- counting

  function RevsIn(tree: map<Key, KeyItem>, k: Key): seq<Revision> {
    if k in tree then Flat(tree[k].gens) else []
  }

  function Sum(m: map<Key, nat>): nat
  {
    if m.Keys == {} then 0
    else
      var k := Min(m.Keys);
      m[k] + Sum(m - {k})
  }

  lemma {:induction false} SumRemove(m: map<Key, nat>, k: Key)
    requires k in m
    ensures Sum(m) == m[k] + Sum(m - {k})
    decreases m.Keys
  {
    var x := Min(m.Keys);
    if x != k {
      SumRemove(m - {x}, k);
      SumRemove(m - {k}, x);
      assert m - {x} - {k} == m - {k} - {x};
    }
  }

  lemma SumInsert(m: map<Key, nat>, k: Key, v: nat)
    requires k !in m
    ensures Sum(m[k := v]) == Sum(m) + v
  {
    SumRemove(m[k := v], k);
    assert m[k := v] - {k} == m;
  }

  lemma {:induction false} SumDropZeros(m: map<Key, nat>, zeros: set<Key>)
    requires zeros <= m.Keys && forall k :: k in zeros ==> m[k] == 0
    ensures Sum(m - zeros) == Sum(m)
    decreases zeros
  {
    if zeros == {} {
      assert m - zeros == m;
    } else {
      var k :| k in zeros;
      SumRemove(m, k);
      SumDropZeros(m - {k}, zeros - {k});
      assert m - {k} - (zeros - {k}) == m - zeros;
    }
  }

  ghost predicate Totals(removed: nat, all: map<Key, nat>, kept: map<Key, nat>) {
    removed + Sum(kept) == Sum(all)
  }

  lemma TotalsStep(removed: nat, all: map<Key, nat>, kept: map<Key, nat>, k: Key, a: nat, b: nat, dropped: nat)
    requires Totals(removed, all, kept) && k !in all && k !in kept && dropped + b == a
    ensures Totals(removed + dropped, all[k := a], kept[k := b])
  {
    SumInsert(all, k, a);
    SumInsert(kept, k, b);
  }

  /** How many revisions each key has. */
  function Lengths(tree: map<Key, KeyItem>): map<Key, nat> {
    map k | k in tree :: |Flat(tree[k].gens)|
  }

  lemma LengthsUnique(tree: map<Key, KeyItem>, m: map<Key, nat>)
    requires m.Keys == tree.Keys && forall k :: k in tree ==> m[k] == |Flat(tree[k].gens)|
    ensures m == Lengths(tree)
  {
  }

  lemma AllDistinct(ks: seq<Key>)
    requires Sorted(ks)
    ensures forall i, j :: 0 <= i < j < |ks| ==> ks[i] != ks[j]
  {
    forall i, j | 0 <= i < j < |ks|
      ensures ks[i] != ks[j]
    {
      LessIrreflexive(ks[i]);
    }
  }

  // ---------------------------------------------------------------- range scans

  /** The revision a scan reports for k: the newest one of an open key when `at` is Zero, otherwise
      what FindRevision gives. Zero means the key is skipped. */
  function RevAt(tree: map<Key, KeyItem>, k: Key, at: Revision): Revision
  {
    if k !in tree then Zero
    else if at != Zero then Find(tree[k].gens, at)
    else if tree[k].IsDeleted() then Zero
    else var g := tree[k].gens[|tree[k].gens| - 1]; g.revs[|g.revs| - 1]
  }

  function Hits(tree: map<Key, KeyItem>, ks: seq<Key>, at: Revision): seq<(Key, Revision)>
  {
    if ks == [] then []
    else
      var k := ks[|ks| - 1];
      Hits(tree, ks[..|ks| - 1], at) + (if RevAt(tree, k, at) == Zero then [] else [(k, RevAt(tree, k, at))])
  }

  lemma HitsSnoc(tree: map<Key, KeyItem>, ks: seq<Key>, k: Key, at: Revision)
    ensures Hits(tree, ks + [k], at) == Hits(tree, ks, at) + (if RevAt(tree, k, at) == Zero then [] else [(k, RevAt(tree, k, at))])
  {
    assert (ks + [k])[..|ks|] == ks;
  }

  /** The revisions of a range: in ascending key order, each key of the half-open interval that has one,
      with that revision. */
  lemma RangeHitsExact(tree: map<Key, KeyItem>, start: Key, end: Option<Key>, at: Revision)
    ensures var hits := Hits(tree, RangeKeys(tree.Keys, start, end), at);
            && (forall i, j :: 0 <= i < j < |hits| ==> Less(hits[i].0, hits[j].0))
            && (forall k, r :: (k, r) in hits <==>
                  k in tree && (k == start || Less(start, k)) && (end.Some? ==> Less(k, end.value)) && r == RevAt(tree, k, at) && r != Zero)
  {
    hide Less, RevAt;
    HitsOf(tree, RangeKeys(tree.Keys, start, end), at);
  }

  lemma {:induction false} HitsOf(tree: map<Key, KeyItem>, ks: seq<Key>, at: Revision)
    requires Sorted(ks)
    ensures var hits := Hits(tree, ks, at);
            && (forall i, j :: 0 <= i < j < |hits| ==> Less(hits[i].0, hits[j].0))
            && (forall k, r :: (k, r) in hits <==> k in ks && r == RevAt(tree, k, at) && r != Zero)
  {
    hide Less, RevAt;
    if ks != [] {
      var n := |ks| - 1;
      var pre := Hits(tree, ks[..n], at);
      HitsOf(tree, ks[..n], at);
      assert ks == ks[..n] + [ks[n]];
      forall i | 0 <= i < |pre|
        ensures Less(pre[i].0, ks[n])
      {
        assert (pre[i].0, pre[i].1) in pre;
      }
    }
  }

  /** The keys of ks[..i] inside the interval, in the same order. */
  ghost predicate IsFiltered(seen: seq<Key>, ks: seq<Key>, i: nat, start: Key, end: Option<Key>)
    requires i <= |ks|
  {
    && Sorted(seen)
    && (forall k :: k in seen <==> k in ks[..i] && InRange(k, start, end))
  }

  lemma FilteredSkip(seen: seq<Key>, ks: seq<Key>, i: nat, start: Key, end: Option<Key>)
    requires i < |ks| && IsFiltered(seen, ks, i, start, end) && !InRange(ks[i], start, end)
    ensures IsFiltered(seen, ks, i + 1, start, end)
  {
    assert ks[..i + 1] == ks[..i] + [ks[i]];
  }

  lemma FilteredTake(seen: seq<Key>, ks: seq<Key>, i: nat, start: Key, end: Option<Key>)
    requires i < |ks| && Sorted(ks) && IsFiltered(seen, ks, i, start, end) && InRange(ks[i], start, end)
    ensures IsFiltered(seen + [ks[i]], ks, i + 1, start, end)
  {
    assert ks[..i + 1] == ks[..i] + [ks[i]];
    forall a | 0 <= a < |seen|
      ensures Less(seen[a], ks[i])
    {
      assert seen[a] in ks[..i];
    }
  }

  /** Once a key is at or past the end, so are all later ones. */
  lemma FilteredDone(seen: seq<Key>, ks: seq<Key>, i: nat, start: Key, end: Option<Key>)
    requires i <= |ks| && Sorted(ks) && IsFiltered(seen, ks, i, start, end)
    requires i < |ks| ==> end.Some? && Leq(end.value, ks[i])
    ensures seen == Ascending(set k | k in ks && InRange(k, start, end))
  {
    forall k
      ensures k in seen <==> k in ks && InRange(k, start, end)
    {
      if k in ks && InRange(k, start, end) {
        var j :| 0 <= j < |ks| && ks[j] == k;
        if i <= j {
          PastEnd(ks[i], k, end.value);
        }
        assert k in ks[..i];
      }
    }
    AscendingUnique(seen, set k | k in ks && InRange(k, start, end));
  }

  lemma PastEnd(a: Key, b: Key, end: Key)
    requires Leq(end, a) && Leq(a, b)
    ensures !Less(b, end)
  {
    LessIrreflexive(end);
    if Less(b, end) {
      if a != b {
        LessTransitive(a, b, end);
      }
      if end != a {
        LessAsymmetric(end, a);
      }
    }
  }

  method Scan(tree: map<Key, KeyItem>, ks: seq<Key>, start: Key, end: Option<Key>, at: Revision)
    returns (hits: seq<(Key, Revision)>)
    requires Sorted(ks) && forall i :: 0 <= i < |ks| ==> ks[i] in tree && ItemOk(tree[ks[i]])
    ensures hits == Hits(tree, Ascending(set k | k in ks && InRange(k, start, end)), at)
  {
    hits := [];
    ghost var seen := [];
    var i := 0;
    while i < |ks|
      invariant 0 <= i <= |ks|
      invariant IsFiltered(seen, ks, i, start, end)
      invariant hits == Hits(tree, seen, at)
    {
      var k := ks[i];
      LessTotal(start, k);
      if Less(k, start) {
        LessAsymmetric(k, start);
        FilteredSkip(seen, ks, i, start, end);
      } else {
        if end.Some? && !Less(k, end.value) {
          LessTotal(k, end.value);
          break;
        }
        var rev := Zero;
        if at == Zero {
          if !tree[k].IsDeleted() {
            var g := tree[k].gens[|tree[k].gens| - 1];
            rev := g.revs[|g.revs| - 1];
          }
        } else {
          rev := FindRevision(tree[k], at);
        }
        HitsSnoc(tree, seen, k, at);
        FilteredTake(seen, ks, i, start, end);
        seen := seen + [k];
        if rev != Zero {
          hits := hits + [(k, rev)];
        }
      }
      i := i + 1;
    }
    FilteredDone(seen, ks, i, start, end);
  }

  // ---------------------------------------------------------------- compaction of the index

  predicate ItemCompacted(was: KeyItem, now: KeyItem, at: Revision, gone: bool) {
    if gone then KeepFrom(Flat(was.gens), at) == []
    else ItemOk(now) && !now.IsDeleted() && Flat(now.gens) == KeepFrom(Flat(was.gens), at)
  }

  lemma CompactedItem(was: KeyItem, gens: seq<Generation>, at: Revision)
    requires Flat(gens) == KeepFrom(Flat(was.gens), at)
    requires forall i :: 0 <= i < |gens| ==> GenOk(gens[i]) && gens[i].revs != []
    ensures ItemCompacted(was, was.(gens := gens), at, gens == [])
  {
  }

  ghost predicate KeyDone(before: map<Key, KeyItem>, tree: map<Key, KeyItem>, gone: set<Key>, all: map<Key, nat>,
                          kept: map<Key, nat>, k: Key, at: Revision) {
    && k in before && k in tree && k in all && k in kept
    && ItemCompacted(before[k], tree[k], at, k in gone)
    && all[k] == |Flat(before[k].gens)|
    && kept[k] == |KeepFrom(Flat(before[k].gens), at)|
  }

  ghost predicate KeyPending(before: map<Key, KeyItem>, tree: map<Key, KeyItem>, gone: set<Key>, all: map<Key, nat>,
                             kept: map<Key, nat>, k: Key) {
    k in before && k in tree && tree[k] == before[k] && k !in gone && k !in all && k !in kept
  }

  ghost predicate Progress(before: map<Key, KeyItem>, tree: map<Key, KeyItem>, gone: set<Key>, all: map<Key, nat>,
                           kept: map<Key, nat>, ks: seq<Key>, i: nat, at: Revision) {
    && tree.Keys == before.Keys && gone <= before.Keys && all.Keys <= before.Keys && kept.Keys <= before.Keys
    && (forall j :: 0 <= j < i && j < |ks| ==> KeyDone(before, tree, gone, all, kept, ks[j], at))
    && (forall j :: i <= j < |ks| ==> KeyPending(before, tree, gone, all, kept, ks[j]))
  }

  lemma KeyDoneFrame(before: map<Key, KeyItem>, tree: map<Key, KeyItem>, gone: set<Key>, all: map<Key, nat>,
                     kept: map<Key, nat>, k: Key, at: Revision, x: Key, item: KeyItem, a: nat, b: nat)
    requires k != x && KeyDone(before, tree, gone, all, kept, k, at)
    ensures KeyDone(before, tree, gone + {x}, all[x := a], kept[x := b], k, at)
    ensures KeyDone(before, tree[x := item], gone, all[x := a], kept[x := b], k, at)
  {
  }

  lemma GoneAnyhow(was: KeyItem, now: KeyItem, at: Revision)
    ensures ItemCompacted(was, now, at, true) ==> ItemCompacted(was, was, at, true)
  {
  }

  lemma ProgressStep(before: map<Key, KeyItem>, tree: map<Key, KeyItem>, gone: set<Key>, all: map<Key, nat>,
                     kept: map<Key, nat>, ks: seq<Key>, i: nat, at: Revision, gens: seq<Generation>)
    requires i < |ks| && (forall a, b :: 0 <= a < b < |ks| ==> ks[a] != ks[b])
    requires Progress(before, tree, gone, all, kept, ks, i, at)
    requires ItemCompacted(before[ks[i]], before[ks[i]].(gens := gens), at, gens == [])
    requires Flat(gens) == KeepFrom(Flat(before[ks[i]].gens), at)
    ensures var k := ks[i];
            var all', kept' := all[k := |Flat(before[k].gens)|], kept[k := |Flat(gens)|];
            if gens == [] then Progress(before, tree, gone + {k}, all', kept', ks, i + 1, at)
            else Progress(before, tree[k := before[k].(gens := gens)], gone, all', kept', ks, i + 1, at)
  {
    hide ItemCompacted, KeepFrom, Flat;
    var k := ks[i];
    assert KeyPending(before, tree, gone, all, kept, k);
    GoneAnyhow(before[k], before[k].(gens := gens), at);
    forall j | 0 <= j < i
      ensures ks[j] != k && KeyDone(before, tree, gone, all, kept, ks[j], at)
    {
    }
    forall j | 0 <= j < i {
      KeyDoneFrame(before, tree, gone, all, kept, ks[j], at, k, before[k].(gens := gens), |Flat(before[k].gens)|, |Flat(gens)|);
    }
  }

  method CompactAll(before: map<Key, KeyItem>, ks: seq<Key>, at: Revision)
    returns (tree: map<Key, KeyItem>, gone: set<Key>, removed: nat, ghost all: map<Key, nat>, ghost kept: map<Key, nat>)
    requires forall i, j :: 0 <= i < j < |ks| ==> ks[i] != ks[j]
    requires forall i :: 0 <= i < |ks| ==> ks[i] in before && ItemOk(before[ks[i]])
    ensures Progress(before, tree, gone, all, kept, ks, |ks|, at) && Totals(removed, all, kept)
  {
    tree, gone, removed := before, {}, 0;
    all, kept := map[], map[];
    var i := 0;
    while i < |ks|
      invariant 0 <= i <= |ks| && Totals(removed, all, kept)
      invariant Progress(before, tree, gone, all, kept, ks, i, at)
    {
      var k := ks[i];
      assert KeyPending(before, tree, gone, all, kept, k);
      var gens, dropped := CompactItem(tree[k], at);
      CompactedItem(tree[k], gens, at);
      TotalsStep(removed, all, kept, k, |Flat(tree[k].gens)|, |Flat(gens)|, dropped);
      ProgressStep(before, tree, gone, all, kept, ks, i, at, gens);
      all, kept := all[k := |Flat(tree[k].gens)|], kept[k := |Flat(gens)|];
      removed := removed + dropped;
      if gens == [] {
        gone := gone + {k};
      } else {
        tree := tree[k := tree[k].(gens := gens)];
      }
      i := i + 1;
    }
  }

  lemma DoneSizes(before: map<Key, KeyItem>, tree: map<Key, KeyItem>, gone: set<Key>, all: map<Key, nat>,
                  kept: map<Key, nat>, k: Key, at: Revision)
    requires KeyDone(before, tree, gone, all, kept, k, at)
    ensures k in before && k in tree && k in all && k in kept && all[k] == |Flat(before[k].gens)|
    ensures if k in gone then kept[k] == 0 else kept[k] == |Flat(tree[k].gens)|
  {
    hide Flat, KeepFrom;
  }

  lemma CompactTotals(before: map<Key, KeyItem>, tree: map<Key, KeyItem>, gone: set<Key>, all: map<Key, nat>,
                      kept: map<Key, nat>, at: Revision)
    requires forall k :: k in before ==> KeyDone(before, tree, gone, all, kept, k, at)
    requires tree.Keys == before.Keys && gone <= before.Keys && all.Keys <= before.Keys && kept.Keys <= before.Keys
    ensures Sum(all) == Sum(Lengths(before)) && Sum(kept) == Sum(Lengths(tree - gone))
  {
    hide KeyDone, Sum, Flat, Lengths;
    forall k | k in before
      ensures k in all && k in kept && all[k] == |Flat(before[k].gens)|
      ensures if k in gone then kept[k] == 0 else kept[k] == |Flat(tree[k].gens)|
    {
      DoneSizes(before, tree, gone, all, kept, k, at);
    }
    assert all.Keys == before.Keys && kept.Keys == before.Keys;
    LengthsUnique(before, all);
    SumDropZeros(kept, gone);
    assert (kept - gone).Keys == (tree - gone).Keys;
    LengthsUnique(tree - gone, kept - gone);
  }

  // ---------------------------------------------------------------- updates as functions

  /** The index after a put. */
  function PutTree(tree: map<Key, KeyItem>, key: Key, rev: Revision): map<Key, KeyItem>
  {
    if key !in tree then tree[key := KeyItem([Generation(rev, [rev])], rev)]
    else if tree[key].IsDeleted() then tree[key := KeyItem(tree[key].gens + [Generation(rev, [rev])], rev)]
    else
      var n := |tree[key].gens| - 1;
      var g := tree[key].gens[n];
      tree[key := KeyItem(tree[key].gens[n := g.(revs := g.revs + [rev])], rev)]
  }

  /** The index after a delete; nothing changes unless the key is open. */
  function DeleteTree(tree: map<Key, KeyItem>, key: Key, rev: Revision): map<Key, KeyItem>
  {
    if key !in tree || tree[key].IsDeleted() then tree
    else
      var n := |tree[key].gens| - 1;
      var g := tree[key].gens[n];
      tree[key := KeyItem(tree[key].gens[n := g.(revs := g.revs + [rev])] + [Generation(rev, [])], rev)]
  }

  lemma PutTreeRevs(tree: map<Key, KeyItem>, key: Key, rev: Revision)
    ensures RevsIn(PutTree(tree, key, rev), key) == RevsIn(tree, key) + [rev]
    ensures key in PutTree(tree, key, rev) && !PutTree(tree, key, rev)[key].IsDeleted()
  {
    if key !in tree {
      FlatSnoc([], Generation(rev, [rev]));
      assert [] + [Generation(rev, [rev])] == [Generation(rev, [rev])];
    } else if tree[key].IsDeleted() {
      FlatSnoc(tree[key].gens, Generation(rev, [rev]));
    } else {
      var gens := tree[key].gens;
      var n := |gens| - 1;
      assert gens[n := gens[n].(revs := gens[n].revs + [rev])][..n] == gens[..n];
    }
  }

  lemma DeleteTreeRevs(tree: map<Key, KeyItem>, key: Key, rev: Revision)
    requires key in tree && !tree[key].IsDeleted()
    ensures RevsIn(DeleteTree(tree, key, rev), key) == RevsIn(tree, key) + [rev]
    ensures key in DeleteTree(tree, key, rev) && DeleteTree(tree, key, rev)[key].IsDeleted()
  {
    var gens := tree[key].gens;
    var n := |gens| - 1;
    var gens' := gens[n := gens[n].(revs := gens[n].revs + [rev])];
    assert gens'[..n] == gens[..n];
    FlatSnoc(gens', Generation(rev, []));
  }

  lemma OpenHasRevs(tree: map<Key, KeyItem>, key: Key)
    ensures key in tree && !tree[key].IsDeleted() ==> RevsIn(tree, key) != []
  {
  }

  lemma LastOfOpen(item: KeyItem)
    requires !item.IsDeleted()
    ensures Flat(item.gens) != []
    ensures var g := item.gens[|item.gens| - 1]; Flat(item.gens)[|Flat(item.gens)| - 1] == g.revs[|g.revs| - 1]
  {
  }

  lemma GenAppend(g: Generation, rev: Revision)
    requires (g.revs != [] ==> GenOk(g)) && (if g.revs == [] then g.created.AtMost(rev) else g.revs[|g.revs| - 1].LessThan(rev))
    ensures GenOk(g.(revs := g.revs + [rev]))
  {
  }

  /** Appending a later revision to the current generation keeps the item well formed. */
  lemma PutTreeOk(tree: map<Key, KeyItem>, key: Key, rev: Revision)
    requires key in tree ==> ItemOk(tree[key])
    requires key in tree && !tree[key].IsDeleted() ==> RevsIn(tree, key)[|RevsIn(tree, key)| - 1].LessThan(rev)
    ensures ItemOk(PutTree(tree, key, rev)[key])
  {
    hide Flat, GenOk;
    PutTreeRevs(tree, key, rev);
    GenAppend(Generation(rev, []), rev);
    assert [] + [rev] == [rev];
    if key in tree && !tree[key].IsDeleted() {
      LastOfOpen(tree[key]);
      GenAppend(tree[key].gens[|tree[key].gens| - 1], rev);
    }
  }

  lemma DeleteTreeOk(tree: map<Key, KeyItem>, key: Key, rev: Revision)
    requires key in tree && !tree[key].IsDeleted() && ItemOk(tree[key])
    requires RevsIn(tree, key)[|RevsIn(tree, key)| - 1].LessThan(rev)
    ensures ItemOk(DeleteTree(tree, key, rev)[key])
  {
    hide Flat;
    DeleteTreeRevs(tree, key, rev);
    LastOfOpen(tree[key]);
    GenAppend(tree[key].gens[|tree[key].gens| - 1], rev);
  }

  // ---------------------------------------------------------------- the index

  class KeyIndex {
    var tree: map<Key, KeyItem>

    ghost predicate Valid()
      reads this
    {
      forall k :: k in tree ==> ItemOk(tree[k])
    }

    ghost function RevsOf(k: Key): seq<Revision>
      reads this
    {
      RevsIn(tree, k)
    }

    ghost predicate Open(k: Key)
      reads this
    {
      k in tree && !tree[k].IsDeleted()
    }

    constructor ()
      ensures Valid() && tree == map[]
    {
      tree := map[];
    }

    method GetRevision(key: Key, at: Revision) returns (r: Revision)
      requires Valid()
      ensures r == if key in tree then Find(tree[key].gens, at) else Zero
      ensures StrictlyAscending(RevsOf(key)) ==> IsLatest(RevsOf(key), at, r)
    {
      if key !in tree {
        return Zero;
      }
      r := FindRevision(tree[key], at);
      if StrictlyAscending(RevsOf(key)) {
        FindIsLatest(tree[key].gens, at);
      }
    }

    /** Appends a revision, opening a new generation when the key is absent or deleted. */
    method Put(key: Key, rev: Revision)
      modifies this
      ensures tree == PutTree(old(tree), key, rev)
      ensures RevsOf(key) == old(RevsOf(key)) + [rev] && Open(key)
      ensures key in tree && tree == old(tree)[key := tree[key]]
      ensures old(Valid()) && (old(Open(key)) ==> old(RevsOf(key))[|old(RevsOf(key))| - 1].LessThan(rev)) ==> Valid()
    {
      hide RevsIn, ItemOk;
      PutTreeRevs(tree, key, rev);
      OpenHasRevs(tree, key);
      if Valid() && (Open(key) ==> RevsOf(key)[|RevsOf(key)| - 1].LessThan(rev)) {
        PutTreeOk(tree, key, rev);
      }
      if key !in tree {
        tree := tree[key := KeyItem([Generation(rev, [rev])], rev)];
        return;
      }
      var item := tree[key];
      if item.IsDeleted() {
        tree := tree[key := KeyItem(item.gens + [Generation(rev, [rev])], rev)];
      } else {
        var n := |item.gens| - 1;
        var g := item.gens[n].(revs := item.gens[n].revs + [rev]);
        tree := tree[key := KeyItem(item.gens[n := g], rev)];
      }
    }

    /** Ends the current generation with `rev`; false when the key is absent or already deleted. */
    method Delete(key: Key, rev: Revision) returns (ok: bool)
      modifies this
      ensures tree == DeleteTree(old(tree), key, rev)
      ensures ok == old(Open(key))
      ensures !ok ==> tree == old(tree)
      ensures ok ==> RevsOf(key) == old(RevsOf(key)) + [rev] && !Open(key)
      ensures ok ==> key in tree && tree == old(tree)[key := tree[key]]
      ensures old(Valid()) && (ok ==> old(RevsOf(key))[|old(RevsOf(key))| - 1].LessThan(rev)) ==> Valid()
    {
      hide RevsIn, ItemOk;
      OpenHasRevs(tree, key);
      if key !in tree || tree[key].IsDeleted() {
        return false;
      }
      DeleteTreeRevs(tree, key, rev);
      if Valid() && RevsOf(key)[|RevsOf(key)| - 1].LessThan(rev) {
        DeleteTreeOk(tree, key, rev);
      }
      var item := tree[key];
      var n := |item.gens| - 1;
      var g := item.gens[n].(revs := item.gens[n].revs + [rev]);
      tree := tree[key := KeyItem(item.gens[n := g] + [Generation(rev, [])], rev)];
      return true;
    }

    /** Scans the keys of [start, end) in ascending order. */
    method Range(start: Key, end: Option<Key>, at: Revision) returns (hits: seq<(Key, Revision)>)
      requires Valid()
      ensures hits == Hits(tree, RangeKeys(tree.Keys, start, end), at)
    {
      var ks := Ascending(tree.Keys);
      hits := Scan(tree, ks, start, end, at);
      assert (set k | k in ks && InRange(k, start, end)) == (set k | k in tree.Keys && InRange(k, start, end));
    }

    /** Total number of revisions over all keys. */
    method RevisionCount() returns (count: nat)
      ensures count == Sum(Lengths(tree))
    {
      var ks := Ascending(tree.Keys);
      AllDistinct(ks);
      ghost var all;
      count, all := CountItems(tree, ks);
      forall k | k in tree
        ensures k in all && all[k] == |Flat(tree[k].gens)|
      {
        assert k in ks;
      }
      LengthsUnique(tree, all);
    }

    /** Drops every revision below `at`; keys without revisions leave the index, and every key that
        stays counts as open. The result is the drop in RevisionCount. */
    method Compact(at: Revision) returns (removed: nat)
      requires Valid()
      modifies this
      ensures Valid()
      ensures forall k :: RevsIn(tree, k) == KeepFrom(RevsIn(old(tree), k), at)
      ensures forall k :: k in tree ==> Open(k)
      ensures removed == Sum(Lengths(old(tree))) - Sum(Lengths(tree))
    {
      var before, ks := tree, Ascending(tree.Keys);
      AllDistinct(ks);
      var compacted, gone;
      ghost var all, kept;
      compacted, gone, removed, all, kept := CompactAll(before, ks, at);
      tree := compacted - gone;
      forall k | k in before
        ensures KeyDone(before, compacted, gone, all, kept, k, at)
      {
        assert k in ks;
      }
      CompactTotals(before, compacted, gone, all, kept, at);
      forall k
        ensures RevsIn(tree, k) == KeepFrom(RevsIn(before, k), at)
      {
        assert k in before ==> KeyDone(before, compacted, gone, all, kept, k, at);
      }
    }
  }

  method CountItems(tree: map<Key, KeyItem>, ks: seq<Key>) returns (count: nat, ghost all: map<Key, nat>)
    requires forall i, j :: 0 <= i < j < |ks| ==> ks[i] != ks[j]
    requires forall i :: 0 <= i < |ks| ==> ks[i] in tree
    ensures count == Sum(all) && all.Keys <= tree.Keys
    ensures forall i :: 0 <= i < |ks| ==> ks[i] in all && all[ks[i]] == |Flat(tree[ks[i]].gens)|
  {
    count, all := 0, map[];
    var i := 0;
    while i < |ks|
      invariant 0 <= i <= |ks| && all.Keys <= tree.Keys && Totals(count, all, map[])
      invariant forall j :: 0 <= j < i ==> ks[j] in all && all[ks[j]] == |Flat(tree[ks[j]].gens)|
      invariant forall j :: i <= j < |ks| ==> ks[j] !in all
    {
      var n := CountItem(tree[ks[i]]);
      SumInsert(all, ks[i], n);
      all := all[ks[i] := n];
      count := count + n;
      i := i + 1;
    }
  }

  method CountItem(item: KeyItem) returns (n: nat)
    ensures n == |Flat(item.gens)|
  {
    n := 0;
    var i := 0;
    while i < |item.gens|
      invariant 0 <= i <= |item.gens| && n == |Flat(item.gens[..i])|
    {
      assert item.gens[..i + 1][..i] == item.gens[..i];
      n := n + |item.gens[i].revs|;
      i := i + 1;
    }
    assert item.gens[..i] == item.gens;
  }
}

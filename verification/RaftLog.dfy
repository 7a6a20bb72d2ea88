/** The persistent raft log: entries by index, two index markers kept in memory and on disk, a snapshot record. */
module RaftLogs {
  import opened Bytes

  /** An encoded entry is never empty. */
  type Size = n: nat | n >= 1 witness 1

  /** Raft numbers entries from 1. */
  type Index = n: nat | n >= 1 witness 1

  datatype Entry = Entry(term: nat, index: Index, size: Size)
  datatype Snapshot = Snapshot(index: nat, term: nat)

  /** What is stored: entries under their index, the snapshot record, the two markers. */
  datatype Disk = Disk(entries: map<nat, Entry>, snap: Option<Snapshot>, first: Option<Index>, last: Option<nat>)

  datatype Log = Log(first: Index, last: nat, entries: map<nat, Entry>, snap: Option<Snapshot>)

  const EmptyDisk := Disk(map[], None, None, None)
  const EmptyLog := Log(1, 0, map[], None)

  /** Missing markers are made up: the log starts at 1, and ends just before its start. */
  function Opened(db: Disk): Log {
    var first := if db.first.Some? then db.first.value else 1;
    Log(first, if db.last.Some? then db.last.value else first - 1, db.entries, db.snap)
  }

  datatype Error = InvalidRange | Compacted | Unavailable | OutOfDate | Beyond | Missing
  datatype Result<+T> = Ok(value: T) | Err(error: Error)

  function At(m: map<nat, Entry>, i: nat): Option<Entry> {
    if i in m then Some(m[i]) else None
  }

  // ---------------------------------------------------------------- steps on values

  datatype Event = Append(ents: seq<Entry>) | CreateSnap(index: nat) | ApplySnap(snap: Snapshot) | Compact(index: nat)

  function PutAll(m: map<nat, Entry>, ents: seq<Entry>): map<nat, Entry> {
    if ents == [] then m else PutAll(m, ents[..|ents| - 1])[ents[|ents| - 1].index := ents[|ents| - 1]]
  }

  /** m without the indexes lo..hi, both included. */
  function Without(m: map<nat, Entry>, lo: int, hi: int): map<nat, Entry> {
    map i | i in m && !(lo <= i <= hi) :: m[i]
  }

  function Greater(a: nat, b: nat): nat {
    if a > b then a else b
  }

  function Lesser(a: nat, b: nat): nat {
    if a < b then a else b
  }

  /** A log that is still empty takes its first index from the entries. */
  function FirstAfter(first: Index, last: nat, incoming: Index): Index {
    if first > last then incoming else first
  }

  function AppendLog(l: Log, ents: seq<Entry>): Log {
    if ents == [] then l
    else
      var first, last := ents[0].index, Greater(ents[|ents| - 1].index, l.last);
      Log(FirstAfter(l.first, last, first), last, PutAll(Without(l.entries, first, l.last), ents), l.snap)
  }

  /** Without a record the snapshot is made up: it ends just before the first entry, with term 0. */
  function LoadSnap(l: Log): Snapshot {
    if l.snap.Some? then l.snap.value else Snapshot(l.first - 1, 0)
  }

  function SnapTerm(l: Log, index: nat): Result<nat> {
    if index + 1 < l.first then Err(OutOfDate)
    else if index > l.last then Err(Beyond)
    else if index + 1 == l.first then Ok(if LoadSnap(l).index != 0 then LoadSnap(l).term else 0)
    else if index !in l.entries then Err(Missing)
    else Ok(l.entries[index].term)
  }

  /** The term of an index: from the snapshot record just before the first entry, else from the entry. */
  function TermAt(l: Log, index: nat): Result<nat> {
    if index + 1 < l.first then Err(Compacted)
    else if index > l.last then Err(Unavailable)
    else if index + 1 == l.first then
      if index == 0 then Ok(0)
      else if LoadSnap(l).index == index then Ok(LoadSnap(l).term)
      else Err(Compacted)
    else if index in l.entries then Ok(l.entries[index].term)
    else Err(Unavailable)
  }

  function StepLog(l: Log, e: Event): Log {
    match e
    case Append(ents) => AppendLog(l, ents)
    case CreateSnap(index) =>
      (match SnapTerm(l, index)
       case Ok(term) => l.(snap := Some(Snapshot(index, term)))
       case Err(_) => l)
    case ApplySnap(snap) =>
      if snap.index == 0 || snap.index < l.first then l
      else Log(snap.index + 1, Greater(snap.index, l.last), Without(l.entries, l.first, Lesser(snap.index, l.last)), Some(snap))
    case Compact(index) =>
      if index <= l.first || index > l.last then l
      else l.(first := index, entries := Without(l.entries, l.first, index - 1))
  }

  function RunLog(es: seq<Event>): Log {
    if es == [] then EmptyLog else StepLog(RunLog(es[..|es| - 1]), es[|es| - 1])
  }

  predicate Contiguous(ents: seq<Entry>) {
    forall i :: 0 <= i < |ents| ==> ents[i].index == ents[0].index + i
  }

  /** What raft guarantees of an append: consecutive indexes that start inside the log or right behind it. */
  predicate Allowed(l: Log, e: Event) {
    e.Append? && e.ents != [] ==> Contiguous(e.ents) && l.first <= e.ents[0].index <= l.last + 1
  }

  predicate RunAllowed(es: seq<Event>) {
    es == [] || (RunAllowed(es[..|es| - 1]) && Allowed(RunLog(es[..|es| - 1]), es[|es| - 1]))
  }

  // ---------------------------------------------------------------- what the log holds

  ghost predicate Inv(l: Log) {
    && l.first <= l.last + 1
    && forall i :: i in l.entries ==> l.first <= i <= l.last && l.entries[i].index == i
  }

  lemma {:induction false} PutAllAt(m: map<nat, Entry>, ents: seq<Entry>, i: nat)
    requires Contiguous(ents) && ents != []
    ensures var f := ents[0].index;
            At(PutAll(m, ents), i) == if f <= i < f + |ents| then Some(ents[i - f]) else At(m, i)
  {
    var n := |ents| - 1;
    if n == 0 {
      assert PutAll(m, ents) == PutAll(m, ents[..0])[ents[0].index := ents[0]];
    } else {
      PutAllAt(m, ents[..n], i);
    }
  }

  lemma AppendAt(l: Log, ents: seq<Entry>, i: nat)
    requires Inv(l) && Allowed(l, Append(ents)) && ents != []
    ensures var f := ents[0].index;
            At(AppendLog(l, ents).entries, i) ==
            if i < f then At(l.entries, i) else if i < f + |ents| then Some(ents[i - f]) else None
  {
    PutAllAt(Without(l.entries, ents[0].index, l.last), ents, i);
  }

  lemma StepInv(l: Log, e: Event)
    requires Inv(l) && Allowed(l, e)
    ensures Inv(StepLog(l, e))
  {
    hide PutAll;
    if e.Append? && e.ents != [] {
      var l' := StepLog(l, e);
      assert e.ents[|e.ents| - 1].index == e.ents[0].index + |e.ents| - 1;
      forall i | i in l'.entries
        ensures l'.first <= i <= l'.last && l'.entries[i].index == i
      {
        AppendAt(l, e.ents, i);
        assert At(l'.entries, i).Some?;
        assert i < e.ents[0].index ==> i in l.entries;
      }
    }
  }

  lemma {:induction false} RunLogInv(es: seq<Event>)
    requires RunAllowed(es)
    ensures Inv(RunLog(es))
  {
    hide StepLog, Inv, Allowed;
    if es == [] {
      EmptyInv();
    } else {
      RunLogInv(es[..|es| - 1]);
      StepInv(RunLog(es[..|es| - 1]), es[|es| - 1]);
    }
  }

  lemma EmptyInv()
    ensures Inv(EmptyLog) && Full(EmptyLog)
  {
  }

  /** The entry that history puts at an index: the latest append that reaches so far back decides. */
  function LiveAt(es: seq<Event>, i: nat): Option<Entry> {
    if es == [] then None
    else
      var pre, e := es[..|es| - 1], es[|es| - 1];
      if i < RunLog(es).first then None
      else if e.Append? && e.ents != [] && i >= e.ents[0].index then
        if i < e.ents[0].index + |e.ents| then Some(e.ents[i - e.ents[0].index]) else None
      else LiveAt(pre, i)
  }

  lemma StepAt(l: Log, e: Event, i: nat)
    requires Inv(l) && Allowed(l, e)
    ensures At(StepLog(l, e).entries, i) ==
            if i < StepLog(l, e).first then None
            else if e.Append? && e.ents != [] && i >= e.ents[0].index then
              if i < e.ents[0].index + |e.ents| then Some(e.ents[i - e.ents[0].index]) else None
            else At(l.entries, i)
  {
    hide PutAll;
    StepInv(l, e);
    if e.Append? && e.ents != [] {
      AppendAt(l, e.ents, i);
    }
  }

  /** After every run, what is stored at an index is what history puts there: nothing overwritten or cut off comes back. */
  lemma {:induction false} EntriesAreLive(es: seq<Event>, i: nat)
    requires RunAllowed(es)
    ensures At(RunLog(es).entries, i) == LiveAt(es, i)
  {
    hide StepLog, Inv, Allowed;
    if es != [] {
      var pre := es[..|es| - 1];
      EntriesAreLive(pre, i);
      RunLogInv(pre);
      StepAt(RunLog(pre), es[|es| - 1], i);
    }
  }

  // ---------------------------------------------------------------- the two markers

  lemma StepMarkers(l: Log, e: Event)
    requires Inv(l) && Allowed(l, e)
    ensures var l' := StepLog(l, e);
            match e
            case Append(ents) => l'.first == l.first && l'.last == if ents == [] then l.last else Greater(l.last, ents[|ents| - 1].index)
            case CreateSnap(_) => l'.first == l.first && l'.last == l.last
            case ApplySnap(snap) => l'.first == Greater(l.first, snap.index + 1) && l'.last == Greater(l.last, snap.index)
            case Compact(i) => l'.first == (if i <= l.last then Greater(l.first, i) else l.first) && l'.last == l.last
  {
    hide PutAll, Without, SnapTerm;
  }

  /** The log starts at the highest index a compaction inside the log asked for, or right behind the
      newest snapshot put in its place; at 1 if there was neither. */
  lemma {:induction false} FirstExact(es: seq<Event>)
    requires RunAllowed(es)
    ensures var first := RunLog(es).first;
            && (forall k :: 0 <= k < |es| && es[k].ApplySnap? ==> es[k].snap.index < first)
            && (forall k :: 0 <= k < |es| && es[k].Compact? && es[k].index <= RunLog(es[..k]).last ==> es[k].index <= first)
            && (first == 1 || exists k :: 0 <= k < |es| && SetsFirst(es[k], first))
  {
    hide StepLog, Inv, Allowed, RunLog;
    if es == [] {
      NoEvents(es);
    } else {
      var n := |es| - 1;
      var pre := es[..n];
      FirstExact(pre);
      RunLogInv(pre);
      RunUnfold(es);
      StepMarkers(RunLog(pre), es[n]);
      assert forall k :: 0 <= k < n ==> pre[..k] == es[..k] && pre[k] == es[k];
      var was := RunLog(pre).first;
      if RunLog(es).first == was && was != 1 {
        var k :| 0 <= k < n && SetsFirst(pre[k], was);
        assert SetsFirst(es[k], was);
      } else {
        assert was != RunLog(es).first ==> SetsFirst(es[n], RunLog(es).first);
      }
    }
  }

  predicate SetsFirst(e: Event, first: nat) {
    (e.ApplySnap? && e.snap.index + 1 == first) || (e.Compact? && e.index == first)
  }

  /** It ends at the highest index ever appended or covered by a snapshot put in its place: no append and
      no compaction moves the end back. */
  lemma {:induction false} LastExact(es: seq<Event>)
    requires RunAllowed(es)
    ensures var last := RunLog(es).last;
            && (forall k :: 0 <= k < |es| && es[k].ApplySnap? ==> es[k].snap.index <= last)
            && (forall k :: 0 <= k < |es| && es[k].Append? && es[k].ents != [] ==> es[k].ents[|es[k].ents| - 1].index <= last)
            && (last == 0 || exists k :: 0 <= k < |es| && SetsLast(es[k], last))
  {
    hide StepLog, Inv, Allowed, RunLog;
    if es == [] {
      NoEvents(es);
    } else {
      var n := |es| - 1;
      var pre := es[..n];
      LastExact(pre);
      RunLogInv(pre);
      RunUnfold(es);
      StepMarkers(RunLog(pre), es[n]);
      assert forall k :: 0 <= k < n ==> pre[k] == es[k];
      var was := RunLog(pre).last;
      if RunLog(es).last == was && was != 0 {
        var k :| 0 <= k < n && SetsLast(pre[k], was);
        assert SetsLast(es[k], was);
      } else {
        assert was != RunLog(es).last ==> SetsLast(es[n], RunLog(es).last);
      }
    }
  }

  predicate SetsLast(e: Event, last: nat) {
    (e.ApplySnap? && e.snap.index == last) || (e.Append? && e.ents != [] && e.ents[|e.ents| - 1].index == last)
  }

  lemma NoEvents(es: seq<Event>)
    requires es == []
    ensures RunLog(es).first == 1 && RunLog(es).last == 0
  {
  }

  lemma RunUnfold(es: seq<Event>)
    requires es != [] && RunAllowed(es)
    ensures var pre := es[..|es| - 1];
            RunLog(es) == StepLog(RunLog(pre), es[|es| - 1]) && RunAllowed(pre) && Allowed(RunLog(pre), es[|es| - 1])
  {
  }

  // ---------------------------------------------------------------- holes

  ghost predicate Full(l: Log) {
    forall i :: l.first <= i <= l.last ==> i in l.entries
  }

  /** An append leaves no hole exactly when it reaches at least the old last index. */
  lemma AppendFull(l: Log, ents: seq<Entry>)
    requires Inv(l) && Full(l) && Allowed(l, Append(ents)) && ents != []
    ensures Full(AppendLog(l, ents)) <==> ents[|ents| - 1].index >= l.last
  {
    hide PutAll;
    var l' := AppendLog(l, ents);
    var f := ents[0].index;
    assert ents[|ents| - 1].index == f + |ents| - 1;
    if ents[|ents| - 1].index >= l.last {
      forall i | l'.first <= i <= l'.last
        ensures i in l'.entries
      {
        AppendAt(l, ents, i);
      }
    } else {
      AppendAt(l, ents, l.last);
      assert At(l'.entries, l.last) == None;
      assert l'.first <= l.last <= l'.last;
    }
  }

  predicate ReachesEnd(l: Log, e: Event) {
    e.Append? && e.ents != [] ==> e.ents[|e.ents| - 1].index >= l.last
  }

  predicate NeverShortens(es: seq<Event>) {
    es == [] || (NeverShortens(es[..|es| - 1]) && ReachesEnd(RunLog(es[..|es| - 1]), es[|es| - 1]))
  }

  lemma StepFull(l: Log, e: Event)
    requires Inv(l) && Full(l) && Allowed(l, e) && ReachesEnd(l, e)
    ensures Full(StepLog(l, e))
  {
    hide PutAll;
    if e.Append? && e.ents != [] {
      AppendFull(l, e.ents);
    }
  }

  /** A run whose appends never end below the last index has every index from first to last. */
  lemma {:induction false} RunFull(es: seq<Event>)
    requires RunAllowed(es) && NeverShortens(es)
    ensures Full(RunLog(es))
  {
    hide StepLog, Inv, Allowed, Full, ReachesEnd;
    if es == [] {
      EmptyInv();
    } else {
      RunFull(es[..|es| - 1]);
      RunLogInv(es[..|es| - 1]);
      StepFull(RunLog(es[..|es| - 1]), es[|es| - 1]);
    }
  }

  // ---------------------------------------------------------------- reading

  function TotalSize(ents: seq<Entry>): nat {
    if ents == [] then 0 else TotalSize(ents[..|ents| - 1]) + ents[|ents| - 1].size
  }

  ghost predicate ReadFrom(l: Log, lo: nat, ents: seq<Entry>) {
    forall j :: 0 <= j < |ents| ==> At(l.entries, lo + j) == Some(ents[j])
  }

  lemma ReadNext(l: Log, lo: nat, ents: seq<Entry>)
    requires ReadFrom(l, lo, ents) && lo + |ents| in l.entries
    ensures ReadFrom(l, lo, ents + [l.entries[lo + |ents|]])
  {
    var more := ents + [l.entries[lo + |ents|]];
    forall j | 0 <= j < |more|
      ensures At(l.entries, lo + j) == Some(more[j])
    {
    }
  }

  /** The longest stretch that fits the size limit, never less than one entry. */
  ghost predicate Fits(l: Log, lo: nat, hi: nat, maxSize: nat, ents: seq<Entry>) {
    && 1 <= |ents| <= hi - lo
    && (|ents| > 1 ==> TotalSize(ents) <= maxSize)
    && (|ents| < hi - lo ==>
          lo + |ents| in l.entries && TotalSize(ents) + l.entries[lo + |ents|].size > maxSize)
  }

  class RocksDBStorage {
    var disk: Disk
    var firstIndex: Index
    var lastIndex: nat

    ghost function View(): Log
      reads this
    {
      Log(firstIndex, lastIndex, disk.entries, disk.snap)
    }

    /** The markers in memory are the ones on disk. */
    ghost predicate Valid()
      reads this
    {
      disk.first == Some(firstIndex) && disk.last == Some(lastIndex)
    }

    /** Opens any database, and writes the markers it lacks. */
    constructor (db: Disk)
      ensures Valid() && View() == Opened(db)
    {
      var first := if db.first.Some? then db.first.value else 1;
      var last := if db.last.Some? then db.last.value else first - 1;
      firstIndex, lastIndex := first, last;
      disk := db.(first := Some(first), last := Some(last));
    }

    method Entries(lo: nat, hi: nat, maxSize: nat) returns (r: Result<seq<Entry>>)
      requires Valid()
      ensures lo > hi ==> r == Err(InvalidRange)
      ensures lo <= hi && lo < firstIndex ==> r == Err(Compacted)
      ensures firstIndex <= lo <= hi && hi > lastIndex + 1 ==> r == Err(Unavailable)
      ensures firstIndex <= lo == hi <= lastIndex + 1 ==> r == Ok([])
      ensures firstIndex <= lo < hi <= lastIndex + 1 ==>
                match r
                case Ok(ents) => ReadFrom(View(), lo, ents) && Fits(View(), lo, hi, maxSize, ents)
                case Err(e) => e == Unavailable && !Full(View())
    {
      if lo > hi {
        return Err(InvalidRange);
      }
      if lo < firstIndex {
        return Err(Compacted);
      }
      if hi > lastIndex + 1 {
        return Err(Unavailable);
      }
      if lo == hi {
        return Ok([]);
      }
      var ents: seq<Entry> := [];
      var size := 0;
      var i := lo;
      while i < hi
        invariant lo <= i <= hi && |ents| == i - lo
        invariant ReadFrom(View(), lo, ents)
        invariant size == TotalSize(ents) && (size > 0 <==> |ents| > 0)
        invariant |ents| > 1 ==> size <= maxSize
      {
        if i !in disk.entries {
          assert !Full(View());
          return Err(Unavailable);
        }
        var ent := disk.entries[i];
        if size > 0 && size + ent.size > maxSize {
          return Ok(ents);
        }
        assert (ents + [ent])[..|ents|] == ents;
        ReadNext(View(), lo, ents);
        ents := ents + [ent];
        size := size + ent.size;
        i := i + 1;
      }
      r := Ok(ents);
    }

    method Term(index: nat) returns (r: Result<nat>)
      requires Valid()
      ensures r == TermAt(View(), index)
    {
      if index + 1 < firstIndex {
        return Err(Compacted);
      }
      if index > lastIndex {
        return Err(Unavailable);
      }
      if index + 1 == firstIndex {
        var snap := LoadSnapshot();
        if snap.index != 0 && snap.index == index {
          return Ok(snap.term);
        }
        if index == 0 {
          return Ok(0);
        }
        return Err(Compacted);
      }
      if index !in disk.entries {
        return Err(Unavailable);
      }
      r := Ok(disk.entries[index].term);
    }

    method LoadSnapshot() returns (snap: Snapshot)
      requires Valid()
      ensures snap == LoadSnap(View())
    {
      snap := if disk.snap.Some? then disk.snap.value else Snapshot(firstIndex - 1, 0);
    }

    method DeleteSpan(entries: map<nat, Entry>, lo: nat, hi: int) returns (r: map<nat, Entry>)
      ensures r == Without(entries, lo, hi)
    {
      r := entries;
      var i := lo;
      assert r == Without(entries, lo, lo - 1);
      while i <= hi
        invariant lo <= i && r == Without(entries, lo, i - 1) && (i > hi ==> i == lo || i == hi + 1)
        decreases hi - i
      {
        r := r - {i};
        i := i + 1;
        assert r == Without(entries, lo, i - 1);
      }
      assert Without(entries, lo, i - 1) == Without(entries, lo, hi);
    }

    method AppendEntries(ents: seq<Entry>)
      requires Valid()
      modifies this
      ensures Valid() && View() == StepLog(old(View()), Append(ents))
    {
      hide Without, PutAll;
      if |ents| == 0 {
        return;
      }
      var first := ents[0].index;
      var last := ents[|ents| - 1].index;
      var entries := disk.entries;
      if first <= lastIndex {
        entries := DeleteSpan(entries, first, lastIndex);
      } else {
        NothingToDelete(entries, first, lastIndex);
      }
      entries := StoreAll(entries, ents);
      var markers := disk;
      if last > lastIndex {
        markers := markers.(last := Some(last));
        lastIndex := last;
      }
      firstIndex := FirstAfter(firstIndex, lastIndex, first);
      disk := markers.(entries := entries, first := Some(firstIndex));
    }

    method StoreAll(entries: map<nat, Entry>, ents: seq<Entry>) returns (r: map<nat, Entry>)
      ensures r == PutAll(entries, ents)
    {
      r := entries;
      var i := 0;
      while i < |ents|
        invariant 0 <= i <= |ents| && r == PutAll(entries, ents[..i])
      {
        assert ents[..i + 1][..i] == ents[..i];
        r := r[ents[i].index := ents[i]];
        i := i + 1;
      }
      assert ents[..i] == ents;
    }

    method CreateSnapshot(index: nat) returns (r: Result<Snapshot>)
      requires Valid()
      modifies this
      ensures Valid() && View() == StepLog(old(View()), CreateSnap(index))
      ensures r == match SnapTerm(old(View()), index) case Ok(term) => Ok(Snapshot(index, term)) case Err(e) => Err(e)
    {
      if index + 1 < firstIndex {
        return Err(OutOfDate);
      }
      if index > lastIndex {
        return Err(Beyond);
      }
      var term := 0;
      if index + 1 == firstIndex {
        var snap := LoadSnapshot();
        if snap.index != 0 {
          term := snap.term;
        }
      } else {
        if index !in disk.entries {
          return Err(Missing);
        }
        term := disk.entries[index].term;
      }
      disk := disk.(snap := Some(Snapshot(index, term)));
      r := Ok(Snapshot(index, term));
    }

    method ApplySnapshot(snap: Snapshot) returns (r: Result<()>)
      requires Valid()
      modifies this
      ensures Valid() && View() == StepLog(old(View()), ApplySnap(snap))
      ensures r == if snap.index != 0 && snap.index < old(firstIndex) then Err(OutOfDate) else Ok(())
    {
      hide Without;
      if snap.index == 0 {
        return Ok(());
      }
      if snap.index <= firstIndex - 1 {
        return Err(OutOfDate);
      }
      var entries := DeleteSpan(disk.entries, firstIndex, if snap.index < lastIndex then snap.index else lastIndex);
      var last := lastIndex;
      if snap.index > lastIndex {
        last := snap.index;
      }
      disk := Disk(entries, Some(snap), Some(snap.index + 1), Some(last));
      lastIndex := last;
      firstIndex := snap.index + 1;
      r := Ok(());
    }

    method CompactTo(index: nat) returns (r: Result<()>)
      requires Valid()
      modifies this
      ensures Valid() && View() == StepLog(old(View()), Compact(index))
      ensures r == if index <= old(firstIndex) then Err(Compacted)
                   else if index > old(lastIndex) then Err(Beyond) else Ok(())
    {
      hide Without;
      if index <= firstIndex {
        return Err(Compacted);
      }
      if index > lastIndex {
        return Err(Beyond);
      }
      var entries := DeleteSpan(disk.entries, firstIndex, index - 1);
      disk := disk.(entries := entries, first := Some(index));
      firstIndex := index;
      r := Ok(());
    }
  }

  lemma NothingToDelete(m: map<nat, Entry>, lo: nat, hi: nat)
    requires lo > hi
    ensures Without(m, lo, hi) == m
  {
    assert Without(m, lo, hi) == m;
  }

  /** Closing the storage and opening it again on what it left on disk changes nothing. */
  method Reopen(s: RocksDBStorage) returns (t: RocksDBStorage)
    requires s.Valid()
    ensures t.Valid() && t.View() == s.View() && t.disk == s.disk
  {
    t := new RocksDBStorage(s.disk);
  }
}

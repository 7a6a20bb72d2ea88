/** Where the terms of the raft log come from, and when the one just before the first entry is right.

    Compaction removes the entry whose term raft still asks for, so that term is answered from the
    snapshot record. Terms are data the leader chose; the questions here are settled by the indexes. */
module RaftTerms {
  import opened Bytes
  import opened RaftLogs

  // ---------------------------------------------------------------- the term an index really has

  predicate Installs(l: Log, e: Event) {
    e.ApplySnap? && e.snap.index != 0 && e.snap.index >= l.first
  }

  /** The term history gives an index, whatever has been compacted since; index 0 has term 0. */
  function TrueTerm(es: seq<Event>, i: nat): Option<nat> {
    if es == [] then (if i == 0 then Some(0) else None)
    else
      var pre, e := es[..|es| - 1], es[|es| - 1];
      if e.Append? && e.ents != [] && i >= e.ents[0].index then
        if i < e.ents[0].index + |e.ents| then Some(e.ents[i - e.ents[0].index].term) else None
      else if Installs(RunLog(pre), e) && i == e.snap.index then Some(e.snap.term)
      else TrueTerm(pre, i)
  }

  /** The storage answers with the term the index really has. */
  ghost predicate AnswersTruly(es: seq<Event>, i: nat) {
    TermAt(RunLog(es), i).Ok? && TrueTerm(es, i) == Some(TermAt(RunLog(es), i).value)
  }

  function Edge(es: seq<Event>): nat { RunLog(es).first - 1 }

  /** Inside the log every answer is true. */
  lemma {:induction false} LiveIsTrue(es: seq<Event>, i: nat)
    requires RunAllowed(es) && LiveAt(es, i).Some?
    ensures TrueTerm(es, i) == Some(LiveAt(es, i).value.term)
  {
    hide StepLog, Allowed;
    if es != [] {
      var pre, e := es[..|es| - 1], es[|es| - 1];
      if !(e.Append? && e.ents != [] && i >= e.ents[0].index) {
        LiveIsTrue(pre, i);
        InstallMovesFirst(RunLog(pre), e);
      }
    }
  }

  lemma InstallMovesFirst(l: Log, e: Event)
    ensures Installs(l, e) ==> StepLog(l, e).first == e.snap.index + 1
  {
  }

  /** From the first entry on, whatever the storage answers is true. */
  lemma EntriesAnswerTruly(es: seq<Event>, i: nat)
    requires RunAllowed(es) && RunLog(es).first <= i
    ensures TermAt(RunLog(es), i).Ok? ==> AnswersTruly(es, i)
  {
    hide RunLog, TrueTerm, LiveAt;
    EntriesAreLive(es, i);
    if i in RunLog(es).entries {
      LiveIsTrue(es, i);
    }
  }

  // ---------------------------------------------------------------- origins

  /** Where a term was taken from: made up as 0, or sent with index i by event n. */
  datatype Origin = MadeUp | Sent(event: nat, index: nat)

  function TrueOrigin(es: seq<Event>, i: nat): Option<Origin> {
    if es == [] then (if i == 0 then Some(MadeUp) else None)
    else
      var pre, e := es[..|es| - 1], es[|es| - 1];
      if e.Append? && e.ents != [] && i >= e.ents[0].index then
        if i < e.ents[0].index + |e.ents| then Some(Sent(|pre|, i)) else None
      else if Installs(RunLog(pre), e) && i == e.snap.index then Some(Sent(|pre|, i))
      else TrueOrigin(pre, i)
  }

  predicate Records(l: Log, e: Event) {
    e.CreateSnap? && SnapTerm(l, e.index).Ok?
  }

  /** Where the term in the snapshot record was taken from. A snapshot at the edge takes the term of
      the record before it, at whatever index that was. */
  function RecordOrigin(es: seq<Event>): Origin {
    if es == [] then MadeUp
    else
      var pre, e := es[..|es| - 1], es[|es| - 1];
      var l := RunLog(pre);
      if Installs(l, e) then Sent(|pre|, e.snap.index)
      else if !Records(l, e) then RecordOrigin(pre)
      else if e.index + 1 == l.first then (if LoadSnap(l).index != 0 then RecordOrigin(pre) else MadeUp)
      else if TrueOrigin(pre, e.index).Some? then TrueOrigin(pre, e.index).value
      else MadeUp
  }

  /** Where the answer at the edge is taken from; None when it is an error. */
  function EdgeOrigin(es: seq<Event>): Option<Origin> {
    var l := RunLog(es);
    if l.first == 1 then Some(MadeUp)
    else if l.snap.None? then Some(MadeUp)
    else if l.snap.value.index + 1 == l.first then Some(RecordOrigin(es))
    else None
  }

  predicate IsSent(es: seq<Event>, o: Origin) {
    o.Sent? ==>
      && o.event < |es|
      && match es[o.event]
         case Append(ents) => ents != [] && ents[0].index <= o.index < ents[0].index + |ents|
         case ApplySnap(snap) => snap.index == o.index
         case _ => false
  }

  function TermOf(es: seq<Event>, o: Origin): nat
    requires IsSent(es, o)
  {
    match o
    case MadeUp => 0
    case Sent(n, i) => if es[n].Append? then es[n].ents[i - es[n].ents[0].index].term else es[n].snap.term
  }

  lemma SentBefore(es: seq<Event>, o: Origin)
    requires es != [] && IsSent(es[..|es| - 1], o)
    ensures IsSent(es, o) && TermOf(es, o) == TermOf(es[..|es| - 1], o)
  {
  }

  lemma {:induction false} TrueOriginIs(es: seq<Event>, i: nat)
    ensures var o := TrueOrigin(es, i);
            if o.None? then TrueTerm(es, i).None?
            else IsSent(es, o.value) && TrueTerm(es, i) == Some(TermOf(es, o.value))
  {
    hide RunLog, Installs;
    if es != [] {
      var pre := es[..|es| - 1];
      TrueOriginIs(pre, i);
      if TrueOrigin(pre, i).Some? {
        SentBefore(es, TrueOrigin(pre, i).value);
      }
      InstallsIs(RunLog(pre), es[|es| - 1]);
    }
  }

  lemma InstallsIs(l: Log, e: Event)
    ensures Installs(l, e) ==> e.ApplySnap?
  {
  }

  ghost predicate RecordIs(es: seq<Event>) {
    var l, o := RunLog(es), RecordOrigin(es);
    IsSent(es, o) && if l.snap.Some? then l.snap.value.term == TermOf(es, o) else o == MadeUp
  }

  lemma {:induction false} RecordOriginIs(es: seq<Event>)
    requires RunAllowed(es)
    ensures RecordIs(es)
  {
    hide RecordIs, Allowed;
    if es == [] {
      NothingRecorded();
    } else {
      var pre, e := es[..|es| - 1], es[|es| - 1];
      RecordOriginIs(pre);
      assert es == pre + [e];
      RecordStep(pre, e);
    }
  }

  lemma NothingRecorded()
    ensures RecordIs([])
  {
  }

  /** What one event does to the snapshot record. */
  lemma SnapAfter(l: Log, e: Event)
    ensures StepLog(l, e).snap ==
            if Installs(l, e) then Some(e.snap)
            else if Records(l, e) then Some(Snapshot(e.index, SnapTerm(l, e.index).value)) else l.snap
  {
  }

  lemma Unfold(pre: seq<Event>, e: Event)
    ensures RunLog(pre + [e]) == StepLog(RunLog(pre), e)
    ensures var l := RunLog(pre);
            RecordOrigin(pre + [e]) ==
            if Installs(l, e) then Sent(|pre|, e.snap.index)
            else if !Records(l, e) then RecordOrigin(pre)
            else if e.index + 1 == l.first then (if LoadSnap(l).index != 0 then RecordOrigin(pre) else MadeUp)
            else if TrueOrigin(pre, e.index).Some? then TrueOrigin(pre, e.index).value
            else MadeUp
  {
    assert (pre + [e])[..|pre|] == pre;
  }

  lemma SentStays(pre: seq<Event>, e: Event, o: Origin)
    requires IsSent(pre, o)
    ensures IsSent(pre + [e], o) && TermOf(pre + [e], o) == TermOf(pre, o)
  {
    assert (pre + [e])[..|pre|] == pre;
    SentBefore(pre + [e], o);
  }

  lemma SentNow(pre: seq<Event>, e: Event)
    requires e.ApplySnap?
    ensures IsSent(pre + [e], Sent(|pre|, e.snap.index)) && TermOf(pre + [e], Sent(|pre|, e.snap.index)) == e.snap.term
  {
  }

  /** The term of a stored entry comes from where history says. */
  lemma EntryOrigin(es: seq<Event>, i: nat)
    requires RunAllowed(es) && i in RunLog(es).entries
    ensures TrueOrigin(es, i).Some? && IsSent(es, TrueOrigin(es, i).value)
    ensures RunLog(es).entries[i].term == TermOf(es, TrueOrigin(es, i).value)
  {
    hide RunLog, LiveAt, TrueTerm, TrueOrigin, IsSent, TermOf;
    EntriesAreLive(es, i);
    LiveIsTrue(es, i);
    TrueOriginIs(es, i);
  }

  lemma RecordStep(pre: seq<Event>, e: Event)
    requires RunAllowed(pre) && RecordIs(pre)
    ensures RecordIs(pre + [e])
  {
    hide TrueOrigin, RunAllowed, RunLog, RecordOrigin, IsSent, TermOf, StepLog, Installs;
    var l := RunLog(pre);
    Unfold(pre, e);
    SnapAfter(l, e);
    InstallsIs(l, e);
    SentStays(pre, e, RecordOrigin(pre));
    if Installs(l, e) {
      SentNow(pre, e);
    } else if Records(l, e) {
      MadeUpIsZero(pre + [e]);
      if e.index + 1 != l.first {
        EntryOrigin(pre, e.index);
        SentStays(pre, e, TrueOrigin(pre, e.index).value);
      } else {
        MadeUpIsZero(pre);
      }
    }
  }

  lemma MadeUpIsZero(es: seq<Event>)
    ensures IsSent(es, MadeUp) && TermOf(es, MadeUp) == 0
  {
  }

  /** The answer at the edge is the term of its origin. */
  lemma EdgeOriginIs(es: seq<Event>)
    requires RunAllowed(es)
    ensures var o, r := EdgeOrigin(es), TermAt(RunLog(es), Edge(es));
            if o.None? then r.Err? else IsSent(es, o.value) && r == Ok(TermOf(es, o.value))
  {
    hide RunLog, RecordOrigin, IsSent, TermOf;
    RecordOriginIs(es);
    MadeUpIsZero(es);
    RunLogInv(es);
  }

  // ---------------------------------------------------------------- runs of one shape

  /** The same entry but for its term. */
  predicate EntryLike(a: Entry, b: Entry) {
    a.index == b.index && a.size == b.size
  }

  predicate EventLike(a: Event, b: Event) {
    match a
    case Append(ents) => b.Append? && |ents| == |b.ents| && forall i :: 0 <= i < |ents| ==> EntryLike(ents[i], b.ents[i])
    case ApplySnap(snap) => b.ApplySnap? && b.snap.index == snap.index
    case _ => a == b
  }

  /** The same run but for the terms that leaders chose. */
  predicate SameShape(a: seq<Event>, b: seq<Event>) {
    |a| == |b| && forall i :: 0 <= i < |a| ==> EventLike(a[i], b[i])
  }

  ghost predicate LogLike(a: Log, b: Log) {
    && a.first == b.first && a.last == b.last && a.entries.Keys == b.entries.Keys
    && a.snap.Some? == b.snap.Some? && (a.snap.Some? ==> a.snap.value.index == b.snap.value.index)
  }

  lemma {:induction false} PutAllKeys(m: map<nat, Entry>, m': map<nat, Entry>, ents: seq<Entry>, ents': seq<Entry>)
    requires m.Keys == m'.Keys && EventLike(Append(ents), Append(ents'))
    ensures PutAll(m, ents).Keys == PutAll(m', ents').Keys
  {
    if ents != [] {
      var n := |ents| - 1;
      assert EntryLike(ents[n], ents'[n]);
      PutAllKeys(m, m', ents[..n], ents'[..n]);
    }
  }

  lemma WithoutKeys(m: map<nat, Entry>, m': map<nat, Entry>, lo: int, hi: int)
    requires m.Keys == m'.Keys
    ensures Without(m, lo, hi).Keys == Without(m', lo, hi).Keys
  {
  }

  lemma StepLike(l: Log, l': Log, e: Event, e': Event)
    requires LogLike(l, l') && EventLike(e, e')
    ensures LogLike(StepLog(l, e), StepLog(l', e')) && (Allowed(l, e) ==> Allowed(l', e'))
    ensures Installs(l, e) == Installs(l', e') && Records(l, e) == Records(l', e') && LoadSnap(l).index == LoadSnap(l').index
  {
    hide PutAll, Without;
    match e
    case Append(ents) =>
      if ents != [] {
        assert EntryLike(ents[0], e'.ents[0]) && EntryLike(ents[|ents| - 1], e'.ents[|ents| - 1]);
        WithoutKeys(l.entries, l'.entries, ents[0].index, l.last);
        PutAllKeys(Without(l.entries, ents[0].index, l.last), Without(l'.entries, ents[0].index, l.last), ents, e'.ents);
      }
    case CreateSnap(index) => assert index in l.entries.Keys <==> index in l'.entries.Keys;
    case ApplySnap(snap) => WithoutKeys(l.entries, l'.entries, l.first, Lesser(snap.index, l.last));
    case Compact(index) => WithoutKeys(l.entries, l'.entries, l.first, index - 1);
  }

  lemma {:induction false} RunLike(es: seq<Event>, es': seq<Event>)
    requires SameShape(es, es')
    ensures LogLike(RunLog(es), RunLog(es')) && (RunAllowed(es) ==> RunAllowed(es'))
  {
    hide StepLog, LogLike, Allowed, EventLike;
    if es == [] {
      EmptyLike();
    } else {
      var n := |es| - 1;
      RunLike(es[..n], es'[..n]);
      StepLike(RunLog(es[..n]), RunLog(es'[..n]), es[n], es'[n]);
    }
  }

  lemma EmptyLike()
    ensures LogLike(EmptyLog, EmptyLog)
  {
  }

  lemma {:induction false} TrueOriginLike(es: seq<Event>, es': seq<Event>, i: nat)
    requires SameShape(es, es')
    ensures TrueOrigin(es, i) == TrueOrigin(es', i)
  {
    hide RunLog, Installs, LogLike;
    if es != [] {
      var n := |es| - 1;
      TrueOriginLike(es[..n], es'[..n], i);
      RunLike(es[..n], es'[..n]);
      assert EventLike(es[n], es'[n]);
      StepLike(RunLog(es[..n]), RunLog(es'[..n]), es[n], es'[n]);
      if es[n].Append? && es[n].ents != [] {
        assert EntryLike(es[n].ents[0], es'[n].ents[0]);
      }
      InstallsIs(RunLog(es[..n]), es[n]);
    }
  }

  lemma {:induction false} RecordOriginLike(es: seq<Event>, es': seq<Event>)
    requires SameShape(es, es')
    ensures RecordOrigin(es) == RecordOrigin(es')
  {
    hide RunLog, Installs, Records, LoadSnap, TrueOrigin, LogLike;
    if es != [] {
      var n := |es| - 1;
      RecordOriginLike(es[..n], es'[..n]);
      RunLike(es[..n], es'[..n]);
      assert EventLike(es[n], es'[n]);
      StepLike(RunLog(es[..n]), RunLog(es'[..n]), es[n], es'[n]);
      LogsLike(RunLog(es[..n]), RunLog(es'[..n]));
      InstallsIs(RunLog(es[..n]), es[n]);
      RecordsIs(RunLog(es[..n]), es[n]);
      if es[n].CreateSnap? {
        TrueOriginLike(es[..n], es'[..n], es[n].index);
      }
    }
  }

  lemma LogsLike(l: Log, l': Log)
    requires LogLike(l, l')
    ensures l.first == l'.first && l.last == l'.last && l.snap.Some? == l'.snap.Some?
    ensures l.snap.Some? ==> l.snap.value.index == l'.snap.value.index
  {
  }

  lemma RecordsIs(l: Log, e: Event)
    ensures Records(l, e) ==> e.CreateSnap?
  {
  }

  lemma SentLike(es: seq<Event>, es': seq<Event>, o: Origin)
    requires SameShape(es, es') && IsSent(es, o)
    ensures IsSent(es', o)
  {
    if o.Sent? {
      assert EventLike(es[o.event], es'[o.event]);
      if es[o.event].Append? {
        assert EntryLike(es[o.event].ents[0], es'[o.event].ents[0]);
      }
    }
  }

  /** The order in which terms are sent: message by message, in each by index. What is made up comes first. */
  predicate UpTo(a: Origin, b: Origin) {
    a.MadeUp? || (b.Sent? && (a.event < b.event || (a.event == b.event && a.index <= b.index)))
  }

  /** Terms from 1 on that never fall in the order they are sent. */
  ghost predicate TermsRise(es: seq<Event>) {
    && (forall a: Origin :: a.Sent? && IsSent(es, a) ==> 1 <= TermOf(es, a))
    && (forall a: Origin, b: Origin :: IsSent(es, a) && IsSent(es, b) && UpTo(a, b) ==> TermOf(es, a) <= TermOf(es, b))
  }

  function Label(o: Origin, at: Origin): nat { if UpTo(at, o) then 1 else 2 }

  function RelabelEvent(e: Event, n: nat, o: Origin): Event {
    match e
    case Append(ents) =>
      Append(seq(|ents|, j requires 0 <= j < |ents| => ents[j].(term := Label(o, Sent(n, ents[0].index + j)))))
    case ApplySnap(snap) => ApplySnap(snap.(term := Label(o, Sent(n, snap.index))))
    case _ => e
  }

  /** The run with term 1 up to the origin o and term 2 after it. */
  function Relabel(es: seq<Event>, o: Origin): seq<Event> {
    seq(|es|, n requires 0 <= n < |es| => RelabelEvent(es[n], n, o))
  }

  lemma RelabelLike(es: seq<Event>, o: Origin)
    ensures SameShape(es, Relabel(es, o)) && SameShape(Relabel(es, o), es)
  {
  }

  lemma RelabelTerm(es: seq<Event>, o: Origin, x: Origin)
    requires IsSent(es, x)
    ensures IsSent(Relabel(es, o), x) && TermOf(Relabel(es, o), x) == if x.MadeUp? then 0 else Label(o, x)
  {
    RelabelLike(es, o);
    SentLike(es, Relabel(es, o), x);
  }

  lemma RelabelRises(es: seq<Event>, o: Origin)
    ensures TermsRise(Relabel(es, o))
  {
    hide IsSent, TermOf, Relabel, SameShape;
    RelabelLike(es, o);
    forall x: Origin | IsSent(Relabel(es, o), x)
      ensures TermOf(Relabel(es, o), x) == if x.MadeUp? then 0 else Label(o, x)
    {
      SentLike(Relabel(es, o), es, x);
      RelabelTerm(es, o, x);
    }
  }

  /** The runs compared: those of the same shape, all of them or only those whose terms never fall. */
  ghost predicate Compared(es: seq<Event>, es': seq<Event>, rising: bool) {
    SameShape(es, es') && (rising ==> TermsRise(es'))
  }

  ghost predicate AlwaysEqual(es: seq<Event>, a: Origin, b: Origin, rising: bool) {
    forall es' :: Compared(es, es', rising) && IsSent(es', a) && IsSent(es', b) ==> TermOf(es', a) == TermOf(es', b)
  }

  /** Two terms agree in all runs of a shape exactly when they have the same origin. */
  lemma OriginsDecide(es: seq<Event>, a: Origin, b: Origin, rising: bool)
    requires IsSent(es, a) && IsSent(es, b)
    ensures AlwaysEqual(es, a, b, rising) <==> a == b
  {
    hide TermOf, IsSent, Relabel, SameShape, TermsRise;
    if a != b {
      var o := if UpTo(a, b) then a else b;
      RelabelLike(es, o);
      RelabelRises(es, o);
      RelabelTerm(es, o, a);
      RelabelTerm(es, o, b);
      assert TermOf(Relabel(es, o), a) != TermOf(Relabel(es, o), b);
    }
  }

  lemma SomeCompared(es: seq<Event>, rising: bool) returns (es': seq<Event>)
    ensures Compared(es, es', rising)
  {
    es' := Relabel(es, MadeUp);
    RelabelLike(es, MadeUp);
    RelabelRises(es, MadeUp);
  }

  // ---------------------------------------------------------------- exactly when

  /** In every run compared the answer at the edge is the true term. */
  ghost predicate EdgeAlwaysTrue(es: seq<Event>, rising: bool) {
    forall es' :: Compared(es, es', rising) ==> AnswersTruly(es', Edge(es'))
  }

  lemma EdgeLike(es: seq<Event>, es': seq<Event>)
    requires SameShape(es, es')
    ensures Edge(es') == Edge(es) && EdgeOrigin(es') == EdgeOrigin(es)
    ensures TrueOrigin(es', Edge(es')) == TrueOrigin(es, Edge(es))
  {
    hide RunLog, LogLike, TrueOrigin, RecordOrigin, SameShape;
    RunLike(es, es');
    LogsLike(RunLog(es), RunLog(es'));
    RecordOriginLike(es, es');
    TrueOriginLike(es, es', Edge(es));
  }

  lemma EdgeTruly(es: seq<Event>)
    requires RunAllowed(es)
    ensures var a, b := EdgeOrigin(es), TrueOrigin(es, Edge(es));
            && (a.Some? ==> IsSent(es, a.value)) && (b.Some? ==> IsSent(es, b.value))
            && (AnswersTruly(es, Edge(es)) <==> a.Some? && b.Some? && TermOf(es, a.value) == TermOf(es, b.value))
  {
    hide RunLog, TrueTerm, TrueOrigin, EdgeOrigin, IsSent, TermOf, TermAt;
    EdgeOriginIs(es);
    TrueOriginIs(es, Edge(es));
  }

  /** The term just before the first entry is right in all runs of a shape, with any terms or only with
      terms that never fall, exactly when the answer is taken from where history takes the term of that
      index. */
  lemma EdgeExact(es: seq<Event>, rising: bool)
    requires RunAllowed(es)
    ensures EdgeAlwaysTrue(es, rising) <==> EdgeOrigin(es).Some? && EdgeOrigin(es) == TrueOrigin(es, Edge(es))
  {
    hide SameShape, TermsRise, AnswersTruly, EdgeOrigin, TrueOrigin, TermOf, IsSent, RunAllowed, Edge;
    var a, b := EdgeOrigin(es), TrueOrigin(es, Edge(es));
    EdgeTruly(es);
    forall es' | SameShape(es, es')
      ensures (a.Some? ==> IsSent(es', a.value)) && (b.Some? ==> IsSent(es', b.value))
      ensures AnswersTruly(es', Edge(es')) <==> a.Some? && b.Some? && TermOf(es', a.value) == TermOf(es', b.value)
    {
      RunLike(es, es');
      EdgeLike(es, es');
      EdgeTruly(es');
    }
    var some := SomeCompared(es, rising);
    if a.Some? && b.Some? {
      OriginsDecide(es, a.value, b.value, rising);
    }
  }

  ghost predicate RecordTrue(es: seq<Event>)
    requires RunLog(es).snap.Some?
  {
    TrueTerm(es, RunLog(es).snap.value.index) == Some(RunLog(es).snap.value.term)
  }

  /** In every run compared the snapshot record carries the true term of its index. */
  ghost predicate RecordAlwaysTrue(es: seq<Event>, rising: bool) {
    forall es' :: Compared(es, es', rising) ==> RunLog(es').snap.Some? && RecordTrue(es')
  }

  lemma RecordTruly(es: seq<Event>)
    requires RunAllowed(es) && RunLog(es).snap.Some?
    ensures var a, b := RecordOrigin(es), TrueOrigin(es, RunLog(es).snap.value.index);
            && IsSent(es, a) && (b.Some? ==> IsSent(es, b.value))
            && (RecordTrue(es) <==> b.Some? && TermOf(es, a) == TermOf(es, b.value))
  {
    hide RunLog, TrueTerm, TrueOrigin, RecordOrigin, IsSent, TermOf;
    RecordOriginIs(es);
    TrueOriginIs(es, RunLog(es).snap.value.index);
  }

  /** A snapshot record carries the right term in all runs of a shape, with any terms or only with terms
      that never fall, exactly when its term was taken from where history takes the term of its index. */
  lemma RecordExact(es: seq<Event>, rising: bool)
    requires RunAllowed(es) && RunLog(es).snap.Some?
    ensures RecordAlwaysTrue(es, rising) <==> TrueOrigin(es, RunLog(es).snap.value.index) == Some(RecordOrigin(es))
  {
    hide SameShape, TermsRise, RecordTrue, RecordOrigin, TrueOrigin, TermOf, IsSent, RunAllowed, RunLog, LogLike;
    var i := RunLog(es).snap.value.index;
    var a, b := RecordOrigin(es), TrueOrigin(es, i);
    RecordTruly(es);
    forall es' | SameShape(es, es')
      ensures RunLog(es').snap.Some? && IsSent(es', a) && (b.Some? ==> IsSent(es', b.value))
      ensures RecordTrue(es') <==> b.Some? && TermOf(es', a) == TermOf(es', b.value)
    {
      RunLike(es, es');
      LogsLike(RunLog(es), RunLog(es'));
      RecordOriginLike(es, es');
      TrueOriginLike(es, es', i);
      RecordTruly(es');
    }
    var some := SomeCompared(es, rising);
    if b.Some? {
      OriginsDecide(es, a, b.value, rising);
    }
  }

  /** The record was taken at a stored index or installed, never moved to another index, and no append
      has reached back to it since. */
  predicate Kept(es: seq<Event>) {
    es != [] &&
    var pre, e := es[..|es| - 1], es[|es| - 1];
    var l := RunLog(pre);
    if Installs(l, e) then true
    else if Records(l, e) then e.index + 1 != l.first || (Kept(pre) && l.snap.Some? && l.snap.value.index == e.index != 0)
    else if e.Append? && e.ents != [] then Kept(pre) && l.snap.Some? && l.snap.value.index < e.ents[0].index
    else Kept(pre)
  }

  lemma {:induction false} KeptOrigin(es: seq<Event>)
    requires RunAllowed(es) && Kept(es)
    ensures RunLog(es).snap.Some? && TrueOrigin(es, RunLog(es).snap.value.index) == Some(RecordOrigin(es))
  {
    hide StepLog, SnapTerm, Allowed;
    var pre, e := es[..|es| - 1], es[|es| - 1];
    var l := RunLog(pre);
    SnapAfter(l, e);
    InstallsIs(l, e);
    if Records(l, e) && e.index + 1 != l.first {
      RecordedEntry(l, e);
      EntryOrigin(pre, e.index);
    } else if !Installs(l, e) {
      KeptOrigin(pre);
    }
  }

  lemma RecordedEntry(l: Log, e: Event)
    requires Records(l, e) && e.index + 1 != l.first
    ensures e.index in l.entries && !Installs(l, e)
  {
  }

  /** A kept record just before the first entry makes the answer there right in all runs of the shape,
      whatever their terms. */
  lemma KeptRecordAnswers(es: seq<Event>)
    requires RunAllowed(es) && Kept(es) && RunLog(es).snap.Some? && RunLog(es).snap.value.index == Edge(es) != 0
    ensures EdgeAlwaysTrue(es, false)
  {
    hide RunLog, TrueOrigin, RecordOrigin, Kept, EdgeAlwaysTrue, RunAllowed;
    KeptOrigin(es);
    EdgeExact(es, false);
  }

  lemma {:induction false} OnlyZeroIsMadeUp(es: seq<Event>, i: nat)
    ensures TrueOrigin(es, i) == Some(MadeUp) ==> i == 0
  {
    hide RunLog, Installs;
    if es != [] {
      OnlyZeroIsMadeUp(es[..|es| - 1], i);
      InstallsIs(RunLog(es[..|es| - 1]), es[|es| - 1]);
    }
  }

  /** Once the log starts behind index 1 without a record at its edge, the answer there is untrue for some
      terms that never fall. */
  lemma MissingRecordFails(es: seq<Event>)
    requires RunAllowed(es) && RunLog(es).first > 1
    requires RunLog(es).snap.None? || RunLog(es).snap.value.index != Edge(es)
    ensures !EdgeAlwaysTrue(es, true)
  {
    hide RunLog, TrueOrigin, RecordOrigin, EdgeAlwaysTrue, RunAllowed;
    EdgeExact(es, true);
    OnlyZeroIsMadeUp(es, Edge(es));
  }

  // ---------------------------------------------------------------- wrong terms

  function Entries3(): seq<Entry> { [Entry(1, 1, 1), Entry(2, 2, 1), Entry(2, 3, 1)] }

  const Unrecorded := [Append(Entries3()), Compact(2)]
  const Borrowed := [Append(Entries3()), CreateSnap(1), Compact(3), CreateSnap(2)]

  lemma AppendedThree(es: seq<Event>)
    requires es == [Append(Entries3())]
    ensures RunAllowed(es) && RunLog(es) == Log(1, 3, map[1 := Entry(1, 1, 1), 2 := Entry(2, 2, 1), 3 := Entry(2, 3, 1)], None)
  {
    var ents := Entries3();
    assert es[..0] == [] && RunLog([]) == EmptyLog;
    assert ents[0].index == 1 && ents[1].index == 2 && ents[2].index == 3;
    assert Contiguous(ents);
    assert Allowed(EmptyLog, es[0]);
    assert RunLog(es) == AppendLog(EmptyLog, ents);
    assert Without(map[], 1, 0) == map[];
    assert ents[..2][..1] == ents[..1] && ents[..1][..0] == [];
    var none: map<nat, Entry> := map[];
    assert PutAll(none, ents[..1]) == map[1 := Entry(1, 1, 1)];
    assert PutAll(none, ents[..2]) == map[1 := Entry(1, 1, 1), 2 := Entry(2, 2, 1)];
    assert PutAll(none, ents) == map[1 := Entry(1, 1, 1), 2 := Entry(2, 2, 1), 3 := Entry(2, 3, 1)];
  }

  /** Compaction without a snapshot: the term asked for is made up as 0. */
  lemma UnrecordedTermIsZero()
    ensures RunAllowed(Unrecorded) && Edge(Unrecorded) == 1
    ensures TermAt(RunLog(Unrecorded), 1) == Ok(0) && TrueTerm(Unrecorded, 1) == Some(1)
  {
    hide RunLog, TrueTerm;
    var pre := [Append(Entries3())];
    AppendedThree(pre);
    assert Unrecorded[..1] == pre && Unrecorded[1] == Compact(2);
    assert Unrecorded == pre + [Compact(2)];
    Unfold(pre, Compact(2));
    TrueTermSnoc(pre, Compact(2), 1);
    FirstTerms(1);
  }

  /** An append that ends below the last index: the marker stays, the entries behind it are gone. */
  lemma ShortAppendLeavesHole()
    ensures var es := [Append(Entries3())] + [Append([Entry(2, 1, 1)])];
            RunAllowed(es) && RunLog(es).last == 3 && TermAt(RunLog(es), 3) == Err(Unavailable) && !Full(RunLog(es))
  {
    hide RunLog;
    var pre, short := [Append(Entries3())], [Entry(2, 1, 1)];
    AppendedThree(pre);
    var es := pre + [Append(short)];
    assert es[..1] == pre;
    Unfold(pre, Append(short));
    var l := RunLog(pre);
    assert Contiguous(short) && Allowed(l, Append(short));
    AppendAt(l, short, 3);
    assert 3 !in RunLog(es).entries;
  }

  lemma TrueTermSnoc(pre: seq<Event>, e: Event, i: nat)
    requires !e.Append? && !e.ApplySnap?
    ensures TrueTerm(pre + [e], i) == TrueTerm(pre, i)
  {
    assert (pre + [e])[..|pre|] == pre;
  }

  lemma FirstTerms(i: nat)
    requires 1 <= i <= 3
    ensures TrueTerm([Append(Entries3())], i) == Some(Entries3()[i - 1].term)
  {
  }

  /** A snapshot at the edge over a record at index 1: it carries the term of index 1, and so does the
      answer at index 2. */
  lemma BorrowedTermIsWrong()
    ensures RunAllowed(Borrowed) && Edge(Borrowed) == 2 && RunLog(Borrowed).snap == Some(Snapshot(2, 1))
    ensures TermAt(RunLog(Borrowed), 2) == Ok(1) && TrueTerm(Borrowed, 2) == Some(2)
  {
    hide RunLog, TrueTerm, RunAllowed;
    var e1, e2, e3, e4 := Append(Entries3()), CreateSnap(1), Compact(3), CreateSnap(2);
    AppendedThree([e1]);
    Unfold([e1], e2);
    Unfold([e1] + [e2], e3);
    Unfold([e1] + [e2] + [e3], e4);
    assert Borrowed == [e1] + [e2] + [e3] + [e4];
    TrueTermSnoc([e1], e2, 2);
    TrueTermSnoc([e1] + [e2], e3, 2);
    TrueTermSnoc([e1] + [e2] + [e3], e4, 2);
    FirstTerms(2);
    AllowedSnoc([e1], e2);
    AllowedSnoc([e1] + [e2], e3);
    AllowedSnoc([e1] + [e2] + [e3], e4);
  }

  lemma AllowedSnoc(pre: seq<Event>, e: Event)
    requires RunAllowed(pre) && !e.Append?
    ensures RunAllowed(pre + [e])
  {
    assert (pre + [e])[..|pre|] == pre;
  }

  // ---------------------------------------------------------------- the storage itself

  method Deliver(s: RocksDBStorage, e: Event)
    requires s.Valid()
    modifies s
    ensures s.Valid() && s.View() == StepLog(old(s.View()), e)
  {
    hide StepLog;
    match e {
      case Append(ents) => s.AppendEntries(ents);
      case CreateSnap(index) => var _ := s.CreateSnapshot(index);
      case ApplySnap(snap) => var _ := s.ApplySnapshot(snap);
      case Compact(index) => var _ := s.CompactTo(index);
    }
  }

  /** A storage opened on an empty database and driven through any events, legal for raft or not. */
  method Drive(es: seq<Event>) returns (s: RocksDBStorage)
    ensures fresh(s) && s.Valid() && s.View() == RunLog(es)
  {
    hide StepLog;
    s := new RocksDBStorage(EmptyDisk);
    var i := 0;
    while i < |es|
      invariant 0 <= i <= |es| && fresh(s) && s.Valid() && s.View() == RunLog(es[..i])
    {
      assert es[..i + 1][..i] == es[..i];
      Deliver(s, es[i]);
      i := i + 1;
    }
    assert es[..i] == es;
  }

  /** Where origins agree, the storage's answer at the edge is the true term, after a restart too. */
  method EdgeTermAfter(es: seq<Event>) returns (r: Result<nat>)
    requires RunAllowed(es) && EdgeOrigin(es).Some? && EdgeOrigin(es) == TrueOrigin(es, Edge(es))
    ensures r.Ok? && TrueTerm(es, Edge(es)) == Some(r.value)
  {
    hide RunLog, TrueOrigin, EdgeOrigin, TrueTerm, RunAllowed, TermAt;
    var s := Drive(es);
    EdgeTruly(es);
    s := Reopen(s);
    r := s.Term(s.firstIndex - 1);
  }
}

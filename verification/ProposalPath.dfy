/** The way of a proposal: taken in by the batcher, committed in a raft entry, sent down the commit channel. */
module ProposalPath {
  import opened Bytes
  import opened Publishers
  import Batchers

  function Flat(bs: seq<seq<Proposal>>): seq<Proposal> {
    if bs == [] then [] else Flat(bs[..|bs| - 1]) + bs[|bs| - 1]
  }

  lemma FlatSnoc(bs: seq<seq<Proposal>>, b: seq<Proposal>)
    ensures Flat(bs + [b]) == Flat(bs) + b
  {
    assert (bs + [b])[..|bs|] == bs;
  }

  lemma {:induction false} FlatConcat(a: seq<seq<Proposal>>, b: seq<seq<Proposal>>)
    ensures Flat(a + b) == Flat(a) + Flat(b)
  {
    if b == [] {
      assert a + b == a;
    } else {
      var n := |b| - 1;
      assert (a + b)[..|a + b| - 1] == a + b[..n];
      FlatConcat(a, b[..n]);
    }
  }

  /** after is before followed by one order to apply for each of ps. */
  predicate Extends(before: seq<Task>, after: seq<Task>, ps: seq<Proposal>) {
    && |after| == |before| + |ps| && after[..|before|] == before
    && forall i :: 0 <= i < |ps| ==> after[|before| + i] == Do(ps[i])
  }

  /** Entry i carries batch i; entries that carry no proposals stand for the empty batch. */
  predicate Carries(ents: seq<Entry>, batches: seq<seq<Proposal>>) {
    && |batches| == |ents|
    && forall i :: 0 <= i < |ents| ==>
         if ents[i].payload.Normal? then ents[i].payload == Normal(batches[i]) else batches[i] == []
  }

  // ---------------------------------------------------------------- published entries on the channel

  /** Publishing entries on a node that is no witness adds every proposal of every batch they carry to the
      tasks, in order; on a witness it adds nothing. */
  lemma {:induction false} PublishedTasks(items: seq<Item>, ents: seq<Entry>, batches: seq<seq<Proposal>>)
    requires Carries(ents, batches)
    ensures Extends(ItemTasks(items, false), ItemTasks(items + Pubs(ents), false), Flat(batches))
    ensures ItemTasks(items + Pubs(ents), true) == ItemTasks(items, true)
  {
    hide ItemTasks, Pubs;
    if ents == [] {
      assert items + Pubs(ents) == items;
    } else {
      var n := |ents| - 1;
      PublishedTasks(items, ents[..n], batches[..n]);
      assert items + Pubs(ents) == (items + Pubs(ents[..n])) + [Pub(ents[n])];
      ItemSnoc(items + Pubs(ents[..n]), Pub(ents[n]), false);
      ItemSnoc(items + Pubs(ents[..n]), Pub(ents[n]), true);
    }
  }

  /** The node's Publish, told by what reaches the commit channel. */
  method PublishBatches(node: RaftNode, ents: seq<Entry>, batches: seq<seq<Proposal>>) returns (ok: bool)
    requires node.Valid() && !node.isWitness && Contiguous(ents) && Carries(ents, batches)
    requires ents != [] ==> ents[0].index == node.appliedIndex + 1 && ents[|ents| - 1].index + 1 < TWO_64
    modifies node
    ensures node.Valid() && (ok <==> forall e :: e in ents ==> e.payload != RemoveNode(node.id))
    ensures Extends(old(CommitTasks(node.commitC)), CommitTasks(node.commitC), if ok then Flat(batches) else [])
  {
    hide ItemTasks, CommitTasks, Data, Flat, Extends, InOrder, High;
    PublishedTasks(node.items, ents, batches);
    ExtendsNothing(CommitTasks(node.commitC));
    NothingPublished(node.items, batches);
    var waiting;
    waiting, ok := node.Publish(ents, false);
  }

  lemma ExtendsNothing(ts: seq<Task>)
    ensures Extends(ts, ts, [])
  {
  }

  lemma NothingPublished(items: seq<Item>, batches: seq<seq<Proposal>>)
    ensures batches == [] ==> Flat(batches) == []
  {
  }

  // ---------------------------------------------------------------- rounds over one log

  /** Entries beyond the start are those of the log that follows it. */
  ghost predicate OfLog(start: nat, log: seq<Entry>, ents: seq<Entry>) {
    forall e :: e in ents ==> e.index - start - 1 < |log| && (start < e.index ==> log[e.index - start - 1] == e)
  }

  /** No snapshot comes in, and the committed entries are those of the log that follows the start. */
  ghost predicate FromLog(start: nat, log: seq<Entry>, rd: Ready) {
    && (rd.snap.None? || rd.snap.value == 0)
    && Contiguous(rd.committed)
    && OfLog(start, log, rd.committed)
  }

  ghost predicate PublishedUpTo(start: nat, log: seq<Entry>, n: Node) {
    start <= n.applied <= start + |log| && n.items == Pubs(log[..n.applied - start])
  }

  lemma NewFromLog(start: nat, log: seq<Entry>, applied: nat, ents: seq<Entry>)
    requires start <= applied <= start + |log| && Contiguous(ents) && ents != [] && ents[0].index == applied + 1
    requires OfLog(start, log, ents)
    ensures ents[|ents| - 1].index == applied + |ents| <= start + |log|
    ensures ents == log[applied - start..applied - start + |ents|]
  {
    assert ents[|ents| - 1] in ents;
    forall i | 0 <= i < |ents|
      ensures ents[i] == log[applied - start + i]
    {
      assert ents[i] in ents && ents[i].index == applied + 1 + i;
    }
  }

  lemma EntriesPublished(start: nat, log: seq<Entry>, n: Node, ents: seq<Entry>)
    requires PublishedUpTo(start, log, n) && Contiguous(ents) && (ents != [] ==> ents[0].index == n.applied + 1)
    requires OfLog(start, log, ents)
    ensures PublishedUpTo(start, log, PublishEntries(n, ents))
  {
    hide Pubs, Contiguous, OfLog;
    if ents != [] {
      NewFromLog(start, log, n.applied, ents);
      var a := n.applied - start;
      PubsSlices(log, a, a + |ents|);
    }
  }

  lemma OfLogPart(start: nat, log: seq<Entry>, all: seq<Entry>, part: seq<Entry>)
    requires OfLog(start, log, all) && forall e :: e in part ==> e in all
    ensures OfLog(start, log, part)
  {
  }

  lemma PubsSlices(log: seq<Entry>, a: nat, b: nat)
    requires a <= b <= |log|
    ensures Pubs(log[..a]) + Pubs(log[a..b]) == Pubs(log[..b])
  {
  }

  lemma RoundPublishes(start: nat, log: seq<Entry>, n: Node, id: nat, snapCount: nat, isWitness: bool, rd: Ready)
    requires PublishedUpTo(start, log, n) && FromLog(start, log, rd)
    ensures PublishedUpTo(start, log, HandleReady(n, id, snapCount, isWitness, rd).node)
  {
    hide RemovesNode, Sends, ToApply, PublishEntries;
    ToApplyExact(n.applied, rd.committed);
    var r := ToApply(n.applied, rd.committed);
    if r.Some? {
      OfLogPart(start, log, rd.committed, r.value);
      EntriesPublished(start, log, n, r.value);
    }
  }

  /** Over any rounds, however the committed stretches overlap, what the node has handed on is the log up
      to its applied index. */
  lemma {:induction false} LogPublished(start: nat, log: seq<Entry>, id: nat, snapCount: nat, isWitness: bool, rds: seq<Ready>)
    requires forall k :: 0 <= k < |rds| ==> FromLog(start, log, rds[k])
    ensures PublishedUpTo(start, log, RunNode(start, id, snapCount, isWitness, rds).node)
  {
    hide FromLog, PublishedUpTo, HandleReady;
    if rds == [] {
      NothingHandedOn(start, log);
    } else {
      var m := |rds| - 1;
      LogPublished(start, log, id, snapCount, isWitness, rds[..m]);
      var o := RunNode(start, id, snapCount, isWitness, rds[..m]);
      if o.Next? {
        RoundPublishes(start, log, o.node, id, snapCount, isWitness, rds[m]);
      }
    }
  }

  lemma NothingHandedOn(start: nat, log: seq<Entry>)
    ensures PublishedUpTo(start, log, Node(start, start, []))
  {
    assert log[..0] == [];
  }

  // ---------------------------------------------------------------- from the batcher to the channel

  /** The batches in the log, in order: the elections and membership changes between them are left out. */
  function BatchesIn(log: seq<Entry>): seq<seq<Proposal>> {
    if log == [] then []
    else
      var p := log[|log| - 1].payload;
      BatchesIn(log[..|log| - 1]) + (if p.Normal? && p.proposals != [] then [p.proposals] else [])
  }

  lemma {:induction false} BatchesInPrefix(log: seq<Entry>, n: nat)
    requires n <= |log|
    ensures BatchesIn(log[..n]) <= BatchesIn(log)
  {
    if n < |log| {
      BatchesInPrefix(log[..|log| - 1], n);
      assert log[..|log| - 1][..n] == log[..n];
    } else {
      assert log[..n] == log;
    }
  }

  lemma BatchesSnoc(log: seq<Entry>, e: Entry)
    ensures BatchesIn(log + [e]) ==
            BatchesIn(log) + (if e.payload.Normal? && e.payload.proposals != [] then [e.payload.proposals] else [])
  {
    assert (log + [e])[..|log|] == log;
  }

  lemma CarriesSnoc(log: seq<Entry>, batches: seq<seq<Proposal>>, e: Entry, b: seq<Proposal>)
    requires Carries(log, batches) && (if e.payload.Normal? then e.payload == Normal(b) else b == [])
    ensures Carries(log + [e], batches + [b])
  {
  }

  /** The log's own batches, entry by entry, carry the same proposals. */
  lemma {:induction false} LogCarries(log: seq<Entry>) returns (batches: seq<seq<Proposal>>)
    ensures Carries(log, batches) && Flat(batches) == Flat(BatchesIn(log))
  {
    if log == [] {
      batches := [];
    } else {
      hide Flat, Carries, BatchesIn;
      var pre, e := log[..|log| - 1], log[|log| - 1];
      assert log == pre + [e];
      var b := if e.payload.Normal? then e.payload.proposals else [];
      var bs := LogCarries(pre);
      batches := bs + [b];
      CarriesSnoc(pre, bs, e, b);
      BatchesSnoc(pre, e);
      FlatSnoc(bs, b);
      FlatSnoc(BatchesIn(pre), b);
      if b == [] {
        assert Flat(bs) + b == Flat(bs) && BatchesIn(pre) + [] == BatchesIn(pre);
      }
    }
  }

  lemma {:induction false} SentIsConcat(bs: seq<Batchers.Batch<Proposal>>)
    requires forall i :: 0 <= i < |bs| ==> bs[i].sent
    ensures Flat(Batchers.SentOn(bs)) == Batchers.Concat(bs)
  {
    if bs != [] {
      var n := |bs| - 1;
      SentIsConcat(bs[..n]);
      FlatSnoc(Batchers.SentOn(bs[..n]), bs[n].items);
    }
  }

  lemma FlatPrefix(a: seq<seq<Proposal>>, b: seq<seq<Proposal>>)
    requires a <= b
    ensures Flat(a) <= Flat(b)
  {
    FlatConcat(a, b[|a|..]);
    assert b == a + b[|a|..];
  }

  /** A batcher nobody stopped takes proposals in; the log that follows the start holds batches it sent, in
      the order sent; a node that is no witness works through that log in any rounds. Then the tasks on the
      commit channel are the proposals the batcher took in, in order and once each, up to some point; and
      all but those still in its buffer once everything it sent is in the log and the log is applied. */
  lemma ProposalsArrive(cfg: Batchers.Config, es: seq<Batchers.Event<Proposal>>, start: nat, log: seq<Entry>,
                        id: nat, snapCount: nat, rds: seq<Ready>) returns (n: nat)
    requires cfg.maxSize != 0 && !Batchers.Run(cfg, es).stopping
    requires BatchesIn(log) <= Batchers.SentOn(Batchers.Run(cfg, es).flushed)
    requires forall k :: 0 <= k < |rds| ==> FromLog(start, log, rds[k])
    ensures n <= |Batchers.Consumed(cfg, es)|
    ensures var node := RunNode(start, id, snapCount, false, rds).node;
            && Extends([], ItemTasks(node.items, false), Batchers.Consumed(cfg, es)[..n])
            && (node.applied == start + |log| && BatchesIn(log) == Batchers.SentOn(Batchers.Run(cfg, es).flushed) ==>
                  n == |Batchers.Consumed(cfg, es)| - |Batchers.Run(cfg, es).buffer|)
  {
    hide RunNode, FromLog, ItemTasks, Extends, Batchers.Run, Batchers.Consumed, Batchers.SentOn, Flat, BatchesIn, Batchers.Concat;
    var node := RunNode(start, id, snapCount, false, rds).node;
    var b, all := Batchers.Run(cfg, es), Batchers.Consumed(cfg, es);
    LogPublished(start, log, id, snapCount, false, rds);
    var done := log[..node.applied - start];
    var batches := LogCarries(done);
    NoItems();
    PublishedTasks([], done, batches);
    assert [] + Pubs(done) == node.items;
    Batchers.Conservation(cfg, es);
    SentIsConcat(b.flushed);
    BatchesInPrefix(log, node.applied - start);
    FlatPrefix(BatchesIn(done), Batchers.SentOn(b.flushed));
    n := |Flat(batches)|;
    assert Batchers.Concat(b.flushed) + b.buffer == all;
    assert all[..n] == Flat(batches);
    if node.applied == start + |log| {
      assert done == log;
    }
  }

  lemma NoItems()
    ensures ItemTasks([], false) == []
  {
  }

  /** One committed entry with a batch of two proposals: both go down the channel. */
  lemma BothProposalsArrive(index: nat, a: Proposal, b: Proposal)
    ensures ItemTasks([Pub(Entry(index, Normal([a, b])))], false) == [Do(a), Do(b)]
  {
    hide ItemTasks;
    var e := Entry(index, Normal([a, b]));
    NoItems();
    PublishedTasks([], [e], [[a, b]]);
    assert [] + Pubs([e]) == [Pub(e)];
    FlatSnoc([], [a, b]);
    assert [] + [[a, b]] == [[a, b]];
    assert Flat([[a, b]]) == [a, b] && [a, b][0] == a && [a, b][1] == b;
  }
}

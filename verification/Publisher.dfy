/** Publication of committed raft entries and snapshots to the state machine. */
module Publishers {
  import opened Bytes

  const TWO_64: int := 0x1_0000_0000_0000_0000

  /** 64-bit unsigned arithmetic. */
  function Add64(a: int, b: int): nat {
    (a + b) % TWO_64
  }

  function Sub64(a: int, b: int): nat {
    (a - b) % TWO_64
  }

  type Proposal = string

  /** A normal entry carries proposals, or bytes that do not decode; the others change the membership. */
  datatype Payload = Normal(proposals: seq<Proposal>) | Undecodable | AddNode(node: nat) | RemoveNode(node: nat)

  datatype Entry = Entry(index: nat, payload: Payload)

  function ProposalsOf(e: Entry): seq<Proposal> {
    if e.payload.Normal? then e.payload.proposals else []
  }

  function Data(ents: seq<Entry>): seq<Proposal> {
    if ents == [] then [] else Data(ents[..|ents| - 1]) + ProposalsOf(ents[|ents| - 1])
  }

  /** What the node has handed on: an entry, or a snapshot in place of everything up to its index. */
  datatype Item = Pub(entry: Entry) | Snap(index: nat)

  datatype Node = Node(applied: nat, snapshot: nat, items: seq<Item>)

  predicate Contiguous(ents: seq<Entry>) {
    forall i :: 0 <= i < |ents| ==> ents[i].index == ents[0].index + i
  }

  /** What raft hands over in one round: perhaps a snapshot, and a stretch of committed entries.
      stopping, closing: the stop signal ends the wait for the commit channel, or the wait for what was
      sent to be applied. */
  datatype Ready = Ready(snap: Option<nat>, committed: seq<Entry>, stopping: bool, closing: bool)

  predicate ReadyOk(rd: Ready) {
    && Contiguous(rd.committed)
    && (rd.snap.Some? ==> rd.snap.value + 1 < TWO_64)
    && |rd.committed| < TWO_64
    && forall i :: 0 <= i < |rd.committed| ==> rd.committed[i].index + 1 < TWO_64
  }

  // ---------------------------------------------------------------- which entries are new

  /** The entries above the applied index; none when a gap would open. */
  function ToApply(applied: nat, ents: seq<Entry>): Option<seq<Entry>> {
    if ents == [] then Some([])
    else if ents[0].index > applied + 1 then None
    else if applied + 1 - ents[0].index <= |ents| then Some(ents[applied + 1 - ents[0].index..])
    else Some([])
  }

  lemma OffsetIs(applied: nat, first: nat)
    requires first <= applied + 1 < TWO_64
    ensures Add64(Sub64(applied, first), 1) == applied + 1 - first
  {
    if first == applied + 1 {
      assert Sub64(applied, first) == TWO_64 - 1;
    }
  }

  method EntriesToApply(appliedIndex: nat, ents: seq<Entry>) returns (r: Option<seq<Entry>>)
    requires appliedIndex + 1 < TWO_64 && |ents| < TWO_64
    ensures r == ToApply(appliedIndex, ents)
  {
    if |ents| == 0 {
      return Some(ents);
    }
    var firstIdx := ents[0].index;
    if firstIdx > Add64(appliedIndex, 1) {
      return None;
    }
    OffsetIs(appliedIndex, firstIdx);
    if Add64(Sub64(appliedIndex, firstIdx), 1) < |ents| {
      return Some(ents[Add64(Sub64(appliedIndex, firstIdx), 1)..]);
    }
    assert ents[|ents|..] == [];
    r := Some([]);
  }

  /** Exactly the entries not applied yet, in order and without a gap. */
  lemma ToApplyExact(applied: nat, ents: seq<Entry>)
    requires Contiguous(ents)
    ensures ToApply(applied, ents).None? <==> ents != [] && ents[0].index > applied + 1
    ensures var r := ToApply(applied, ents);
            r.Some? ==>
              && Contiguous(r.value)
              && (r.value != [] ==> r.value[0].index == applied + 1)
              && (forall e :: e in ents ==> (e in r.value <==> e.index > applied))
              && (forall e :: e in r.value ==> e in ents)
  {
    var r := ToApply(applied, ents);
    if ents != [] && r.Some? {
      forall e | e in ents
        ensures e in r.value <==> e.index > applied
      {
        NewExactly(applied, ents, e);
      }
    }
  }

  lemma NewExactly(applied: nat, ents: seq<Entry>, e: Entry)
    requires Contiguous(ents) && e in ents && ToApply(applied, ents).Some?
    ensures e in ToApply(applied, ents).value <==> e.index > applied
  {
    var rest := ToApply(applied, ents).value;
    var k := applied + 1 - ents[0].index;
    var i :| 0 <= i < |ents| && ents[i] == e;
    if k <= |ents| && k <= i {
      assert rest[i - k] == e;
    }
    if e in rest {
      var j :| 0 <= j < |rest| && rest[j] == e;
      assert ents[k + j] == e;
    }
  }

  // ---------------------------------------------------------------- steps on values

  predicate RemovesNode(ents: seq<Entry>, id: nat) {
    exists i :: 0 <= i < |ents| && ents[i].payload == RemoveNode(id)
  }

  function Pubs(ents: seq<Entry>): (r: seq<Item>)
    ensures |r| == |ents| && forall i :: 0 <= i < |ents| ==> r[i] == Pub(ents[i])
  {
    seq(|ents|, i requires 0 <= i < |ents| => Pub(ents[i]))
  }

  function PublishEntries(n: Node, ents: seq<Entry>): Node {
    if ents == [] then n else Node(ents[|ents| - 1].index, n.snapshot, n.items + Pubs(ents))
  }

  /** There is something to send down the commit channel; a witness sends nothing. */
  predicate Sends(ents: seq<Entry>, isWitness: bool) {
    !isWitness && Data(ents) != []
  }

  /** The node goes on, has to stop (it was removed or told to), or gives up on an input raft never produces. */
  datatype Outcome = Next(node: Node) | Stopped(node: Node) | Fatal(node: Node)

  function PublishSnapshot(n: Node, snap: Option<nat>): Outcome {
    if snap.None? || snap.value == 0 then Next(n)
    else if snap.value <= n.applied then Fatal(n)
    else Next(Node(snap.value, snap.value, n.items + [Snap(snap.value)]))
  }

  const CATCH_UP: nat := 10000

  function CompactIndex(applied: nat): nat {
    if applied > CATCH_UP then applied - CATCH_UP else 1
  }

  function TriggerSnapshot(n: Node, snapCount: nat): Node {
    if n.applied - n.snapshot <= snapCount then n else n.(snapshot := n.applied)
  }

  function HandleReady(n: Node, id: nat, snapCount: nat, isWitness: bool, rd: Ready): Outcome {
    match PublishSnapshot(n, rd.snap)
    case Fatal(m) => Fatal(m)
    case Stopped(m) => Stopped(m)
    case Next(m) =>
      match ToApply(m.applied, rd.committed)
      case None => Fatal(m)
      case Some(ents) =>
        if RemovesNode(ents, id) || (rd.stopping && Sends(ents, isWitness)) then Stopped(m)
        else if rd.closing && Sends(ents, isWitness) then Next(PublishEntries(m, ents))
        else Next(TriggerSnapshot(PublishEntries(m, ents), snapCount))
  }

  /** Unless the stop signal cuts the wait short, a round never leaves more than snapCount entries applied
      beyond the snapshot; a snapshot is only taken of what is applied. */
  lemma SnapshotKeepsUp(n: Node, id: nat, snapCount: nat, isWitness: bool, rd: Ready)
    ensures var o := HandleReady(n, id, snapCount, isWitness, rd);
            && (o.Next? && !rd.closing ==> o.node.applied - o.node.snapshot <= snapCount)
            && (o.Next? ==> o.node.snapshot == o.node.applied || o.node.snapshot == PublishSnapshot(n, rd.snap).node.snapshot)
  {
    hide Sends, RemovesNode;
  }

  /** The log is cut so that the last 10000 applied entries stay, or all of them. */
  lemma CompactKeepsCatchUp(applied: nat, i: nat)
    requires 1 <= i <= applied
    ensures CompactIndex(applied) <= i <==> i == applied || applied - i <= 10000
  {
  }

  function RunNode(start: nat, id: nat, snapCount: nat, isWitness: bool, rds: seq<Ready>): Outcome {
    if rds == [] then Next(Node(start, start, []))
    else
      match RunNode(start, id, snapCount, isWitness, rds[..|rds| - 1])
      case Next(n) => HandleReady(n, id, snapCount, isWitness, rds[|rds| - 1])
      case o => o
  }

  // ---------------------------------------------------------------- exactly once

  function High(start: nat, items: seq<Item>): nat {
    if items == [] then start
    else
      match items[|items| - 1]
      case Pub(e) => e.index
      case Snap(i) => i
  }

  /** Each entry is the next one; each snapshot is ahead of what came before. */
  predicate InOrder(start: nat, items: seq<Item>) {
    items == [] ||
    (var pre := items[..|items| - 1];
     && InOrder(start, pre)
     && match items[|items| - 1]
        case Pub(e) => e.index == High(start, pre) + 1
        case Snap(i) => i > High(start, pre))
  }

  lemma InOrderSnoc(start: nat, items: seq<Item>, x: Item)
    requires InOrder(start, items)
    requires match x case Pub(e) => e.index == High(start, items) + 1 case Snap(i) => i > High(start, items)
    ensures InOrder(start, items + [x])
  {
    assert (items + [x])[..|items|] == items;
  }

  lemma {:induction false} InOrderPubs(start: nat, items: seq<Item>, ents: seq<Entry>)
    requires InOrder(start, items) && Contiguous(ents)
    requires ents != [] ==> ents[0].index == High(start, items) + 1
    ensures InOrder(start, items + Pubs(ents))
    ensures High(start, items + Pubs(ents)) == if ents == [] then High(start, items) else ents[|ents| - 1].index
  {
    hide InOrder, High, Pubs;
    if ents == [] {
      assert items + Pubs(ents) == items;
    } else {
      var n := |ents| - 1;
      InOrderPubs(start, items, ents[..n]);
      var before := items + Pubs(ents[..n]);
      assert items + Pubs(ents) == before + [Pub(ents[n])];
      InOrderSnoc(start, before, Pub(ents[n]));
      HighSnoc(start, before, Pub(ents[n]));
    }
  }

  lemma HighSnoc(start: nat, items: seq<Item>, x: Item)
    ensures High(start, items + [x]) == match x case Pub(e) => e.index case Snap(i) => i
  {
  }

  ghost predicate NodeOk(start: nat, n: Node) {
    InOrder(start, n.items) && High(start, n.items) == n.applied && n.snapshot <= n.applied
  }

  lemma SnapshotOk(start: nat, n: Node, snap: Option<nat>)
    requires NodeOk(start, n)
    ensures NodeOk(start, PublishSnapshot(n, snap).node)
  {
    if PublishSnapshot(n, snap).Next? && snap.Some? && snap.value != 0 {
      InOrderSnoc(start, n.items, Snap(snap.value));
    }
  }

  lemma ReadyStep(start: nat, n: Node, id: nat, snapCount: nat, isWitness: bool, rd: Ready)
    requires NodeOk(start, n) && Contiguous(rd.committed)
    ensures NodeOk(start, HandleReady(n, id, snapCount, isWitness, rd).node)
  {
    hide InOrder, High, Sends, RemovesNode, ToApply, PublishSnapshot, Contiguous;
    SnapshotOk(start, n, rd.snap);
    var o := PublishSnapshot(n, rd.snap);
    if o.Next? {
      ToApplyExact(o.node.applied, rd.committed);
      var r := ToApply(o.node.applied, rd.committed);
      if r.Some? {
        InOrderPubs(start, o.node.items, r.value);
      }
    }
  }

  lemma {:induction false} RunOk(start: nat, id: nat, snapCount: nat, isWitness: bool, rds: seq<Ready>)
    requires forall i :: 0 <= i < |rds| ==> Contiguous(rds[i].committed)
    ensures NodeOk(start, RunNode(start, id, snapCount, isWitness, rds).node)
  {
    hide HandleReady;
    if rds != [] {
      RunOk(start, id, snapCount, isWitness, rds[..|rds| - 1]);
      var o := RunNode(start, id, snapCount, isWitness, rds[..|rds| - 1]);
      if o.Next? {
        ReadyStep(start, o.node, id, snapCount, isWitness, rds[|rds| - 1]);
      }
    }
  }

  /** Item j takes care of log index i: it is that entry, or the snapshot that first reaches it. */
  ghost predicate Handles(start: nat, items: seq<Item>, j: nat, i: nat)
    requires j < |items|
  {
    match items[j]
    case Pub(e) => e.index == i
    case Snap(s) => High(start, items[..j]) < i <= s
  }

  lemma {:induction false} HandledBelow(start: nat, items: seq<Item>, j: nat, i: nat)
    requires InOrder(start, items) && j < |items| && Handles(start, items, j, i)
    ensures start < i <= High(start, items)
    decreases |items|
  {
    var n := |items| - 1;
    HighGrows(start, items[..n]);
    if j < n {
      assert items[..n][..j] == items[..j];
      HandledBelow(start, items[..n], j, i);
    }
  }

  lemma {:induction false} HighGrows(start: nat, items: seq<Item>)
    requires InOrder(start, items)
    ensures High(start, items) >= start
  {
    if items != [] {
      HighGrows(start, items[..|items| - 1]);
    }
  }

  /** Every index up to the applied one is taken care of. */
  lemma {:induction false} HandledSome(start: nat, items: seq<Item>, i: nat) returns (j: nat)
    requires InOrder(start, items) && start < i <= High(start, items)
    ensures j < |items| && Handles(start, items, j, i)
    decreases |items|
  {
    var n := |items| - 1;
    if i <= High(start, items[..n]) {
      j := HandledSome(start, items[..n], i);
      assert items[..n][..j] == items[..j];
    } else {
      j := n;
    }
  }

  /** And by one item only. */
  lemma {:induction false} HandledOnce(start: nat, items: seq<Item>, i: nat, j: nat, k: nat)
    requires InOrder(start, items) && j < |items| && k < |items|
    requires Handles(start, items, j, i) && Handles(start, items, k, i)
    ensures j == k
    decreases |items|
  {
    var n := |items| - 1;
    assert j < n ==> items[..n][..j] == items[..j];
    assert k < n ==> items[..n][..k] == items[..k];
    if j < n {
      HandledBelow(start, items[..n], j, i);
    }
    if k < n {
      HandledBelow(start, items[..n], k, i);
    }
    if j < n && k < n {
      HandledOnce(start, items[..n], i, j, k);
    }
  }

  /**
   * Over any rounds of raft, however the committed stretches overlap, each log index from the
   * start to the applied one is handed on once, as its entry or inside a snapshot, and no other is.
   */
  lemma ExactlyOnce(start: nat, id: nat, snapCount: nat, isWitness: bool, rds: seq<Ready>, i: nat)
    requires forall k :: 0 <= k < |rds| ==> Contiguous(rds[k].committed)
    ensures var n := RunNode(start, id, snapCount, isWitness, rds).node;
            && n.snapshot <= n.applied && InOrder(start, n.items)
            && (start < i <= n.applied <==> exists j :: 0 <= j < |n.items| && Handles(start, n.items, j, i))
            && (forall j, k | 0 <= j < |n.items| && 0 <= k < |n.items| ::
                  Handles(start, n.items, j, i) && Handles(start, n.items, k, i) ==> j == k)
  {
    hide RunNode, InOrder, Handles;
    RunOk(start, id, snapCount, isWitness, rds);
    var n := RunNode(start, id, snapCount, isWitness, rds).node;
    if start < i <= n.applied {
      var j := HandledSome(start, n.items, i);
    }
    forall j | 0 <= j < |n.items| && Handles(start, n.items, j, i)
      ensures start < i <= n.applied
    {
      HandledBelow(start, n.items, j, i);
    }
    forall j, k | 0 <= j < |n.items| && 0 <= k < |n.items| &&
                  Handles(start, n.items, j, i) && Handles(start, n.items, k, i)
      ensures j == k
    {
      HandledOnce(start, n.items, i, j, k);
    }
  }

  // ---------------------------------------------------------------- the node

  /** What goes down the commit channel: proposals to apply, or the order to load a snapshot. */
  datatype Commit = CommitData(data: seq<Proposal>) | LoadSnapshot

  /** What the receiver gets to do, one after the other. */
  datatype Task = Do(proposal: Proposal) | Load

  function Tasks(data: seq<Proposal>): (r: seq<Task>)
    ensures |r| == |data| && forall i :: 0 <= i < |data| ==> r[i] == Do(data[i])
  {
    seq(|data|, i requires 0 <= i < |data| => Do(data[i]))
  }

  function ItemTask(x: Item, isWitness: bool): seq<Task> {
    match x
    case Pub(e) => if isWitness then [] else Tasks(ProposalsOf(e))
    case Snap(_) => [Load]
  }

  /** The tasks of the published items, in order: a witness passes on snapshots only. */
  function ItemTasks(items: seq<Item>, isWitness: bool): seq<Task> {
    if items == [] then []
    else ItemTasks(items[..|items| - 1], isWitness) + ItemTask(items[|items| - 1], isWitness)
  }

  function CommitTasks(cs: seq<Commit>): seq<Task> {
    if cs == [] then []
    else
      CommitTasks(cs[..|cs| - 1]) +
      (match cs[|cs| - 1] case CommitData(data) => Tasks(data) case LoadSnapshot => [Load])
  }

  lemma ItemSnoc(items: seq<Item>, x: Item, isWitness: bool)
    ensures ItemTasks(items + [x], isWitness) == ItemTasks(items, isWitness) + ItemTask(x, isWitness)
  {
    assert (items + [x])[..|items|] == items;
  }

  lemma CommitSnoc(cs: seq<Commit>, c: Commit)
    ensures CommitTasks(cs + [c]) == CommitTasks(cs) + (match c case CommitData(data) => Tasks(data) case LoadSnapshot => [Load])
  {
    assert (cs + [c])[..|cs|] == cs;
  }

  lemma TasksConcat(a: seq<Proposal>, b: seq<Proposal>)
    ensures Tasks(a + b) == Tasks(a) + Tasks(b)
  {
  }

  lemma {:induction false} ItemPubs(items: seq<Item>, ents: seq<Entry>, isWitness: bool)
    ensures ItemTasks(items + Pubs(ents), isWitness) == ItemTasks(items, isWitness) + (if isWitness then [] else Tasks(Data(ents)))
  {
    hide ItemTasks, Tasks, Pubs;
    if ents == [] {
      assert items + Pubs(ents) == items;
    } else {
      var n := |ents| - 1;
      ItemPubs(items, ents[..n], isWitness);
      TasksConcat(Data(ents[..n]), ProposalsOf(ents[n]));
      assert items + Pubs(ents) == (items + Pubs(ents[..n])) + [Pub(ents[n])];
      ItemSnoc(items + Pubs(ents[..n]), Pub(ents[n]), isWitness);
    }
  }

  lemma NoData()
    ensures Data([]) == []
  {
  }

  class RaftNode {
    const id: nat
    const snapCount: nat
    const isWitness: bool
    ghost const start: nat
    var appliedIndex: nat
    var snapshotIndex: nat
    var commitC: seq<Commit>
    ghost var items: seq<Item>

    ghost function View(): Node
      reads this
    {
      Node(appliedIndex, snapshotIndex, items)
    }

    /** What was sent down the channel is what the published items ask for: proposals and snapshot loads in
        one order. */
    ghost predicate Valid()
      reads this
    {
      NodeOk(start, View()) && appliedIndex + 1 < TWO_64 && CommitTasks(commitC) == ItemTasks(items, isWitness)
    }

    /** Starts from the index of the stored snapshot. */
    constructor (id: nat, snapCount: nat, isWitness: bool, index: nat)
      requires index + 1 < TWO_64
      ensures Valid() && this.id == id && this.snapCount == snapCount && this.isWitness == isWitness && start == index
      ensures View() == Node(index, index, []) && commitC == []
    {
      this.id, this.snapCount, this.isWitness, start := id, snapCount, isWitness, index;
      appliedIndex, snapshotIndex := index, index;
      commitC, items := [], [];
    }

    /** Collects the proposals; false when the entries remove this node. */
    method Collect(ents: seq<Entry>) returns (data: seq<Proposal>, ok: bool)
      ensures ok == !RemovesNode(ents, id)
      ensures ok ==> data == Data(ents)
    {
      data := [];
      var i := 0;
      while i < |ents|
        invariant 0 <= i <= |ents| && data == Data(ents[..i])
        invariant forall j :: 0 <= j < i ==> ents[j].payload != RemoveNode(id)
      {
        assert ents[..i + 1][..i] == ents[..i];
        match ents[i].payload {
          case Normal(proposals) => data := data + proposals;
          case Undecodable =>
          case AddNode(_) =>
          case RemoveNode(node) =>
            if node == id {
              return data, false;
            }
        }
        i := i + 1;
      }
      assert ents[..i] == ents;
      ok := true;
    }

    /** waiting: something was sent that is still to be applied. */
    method Publish(ents: seq<Entry>, stopping: bool) returns (waiting: bool, ok: bool)
      requires Valid() && Contiguous(ents)
      requires ents != [] ==> ents[0].index == appliedIndex + 1 && ents[|ents| - 1].index + 1 < TWO_64
      modifies this
      ensures Valid() && ok == !(RemovesNode(ents, id) || (stopping && Sends(ents, isWitness)))
      ensures ok ==> waiting == Sends(ents, isWitness)
      ensures View() == if ok then PublishEntries(old(View()), ents) else old(View())
    {
      hide InOrder, High, ItemTasks, CommitTasks, Data;
      if |ents| == 0 {
        NoData();
        return false, true;
      }
      waiting := false;
      var data;
      data, ok := Collect(ents);
      if !ok {
        return;
      }
      ItemPubs(items, ents, isWitness);
      InOrderPubs(start, items, ents);
      if !isWitness && |data| > 0 {
        if stopping {
          return false, false;
        }
        waiting := true;
        CommitSnoc(commitC, CommitData(data));
        commitC := commitC + [CommitData(data)];
      }
      items := items + Pubs(ents);
      appliedIndex := ents[|ents| - 1].index;
    }

    method TakeSnapshot(snap: Option<nat>) returns (ok: bool)
      requires Valid() && (snap.Some? ==> snap.value + 1 < TWO_64)
      modifies this
      ensures Valid() && View() == PublishSnapshot(old(View()), snap).node
      ensures ok == PublishSnapshot(old(View()), snap).Next?
    {
      hide InOrder, High, ItemTasks, CommitTasks;
      SnapshotOk(start, View(), snap);
      if snap.None? || snap.value == 0 {
        return true;
      }
      if snap.value <= appliedIndex {
        return false;
      }
      CommitSnoc(commitC, LoadSnapshot);
      ItemSnoc(items, Snap(snap.value), isWitness);
      commitC := commitC + [LoadSnapshot];
      items := items + [Snap(snap.value)];
      snapshotIndex := snap.value;
      appliedIndex := snap.value;
      ok := true;
    }

    /** Takes a snapshot when enough has been applied since the last, unless the stop signal ends the wait
        for what was sent to be applied; says up to where the log may go. */
    method MaybeTriggerSnapshot(waiting: bool, closing: bool) returns (compacted: Option<nat>)
      requires Valid()
      modifies this
      ensures Valid() && View() == if waiting && closing then old(View()) else TriggerSnapshot(old(View()), snapCount)
      ensures compacted.Some? <==> old(appliedIndex) - old(snapshotIndex) > snapCount && !(waiting && closing)
      ensures compacted.Some? ==> compacted.value == CompactIndex(appliedIndex) && 1 <= compacted.value <= appliedIndex
    {
      hide InOrder, High, ItemTasks, CommitTasks;
      assert Sub64(appliedIndex, snapshotIndex) == appliedIndex - snapshotIndex;
      if Sub64(appliedIndex, snapshotIndex) <= snapCount {
        return None;
      }
      if waiting && closing {
        return None;
      }
      var compactIndex := 1;
      if appliedIndex > CATCH_UP {
        compactIndex := appliedIndex - CATCH_UP;
      }
      snapshotIndex := appliedIndex;
      compacted := Some(compactIndex);
    }

    /** One round of the raft loop. */
    method Handle(rd: Ready) returns (ok: bool)
      requires Valid() && ReadyOk(rd)
      modifies this
      ensures Valid()
      ensures var o := HandleReady(old(View()), id, snapCount, isWitness, rd);
              View() == o.node && ok == o.Next?
    {
      hide InOrder, High, ItemTasks, CommitTasks, NodeOk;
      ok := TakeSnapshot(rd.snap);
      if !ok {
        return;
      }
      ToApplyExact(appliedIndex, rd.committed);
      var ents := EntriesToApply(appliedIndex, rd.committed);
      if ents.None? {
        return false;
      }
      LastInBounds(rd, ents.value);
      var waiting;
      waiting, ok := Publish(ents.value, rd.stopping);
      if ok {
        var compacted := MaybeTriggerSnapshot(waiting, rd.closing);
      }
    }
  }

  lemma LastInBounds(rd: Ready, ents: seq<Entry>)
    requires ReadyOk(rd) && forall e :: e in ents ==> e in rd.committed
    ensures ents != [] ==> ents[|ents| - 1].index + 1 < TWO_64
  {
    if ents != [] {
      assert ents[|ents| - 1] in rd.committed;
    }
  }
}

/** Leader election by create revision, as steps of campaigning clients over a shared store. */
module Elections {
  import Histories

  // ---------------------------------------------------------------- candidate keys

  const HEX: string := "0123456789abcdef"

  function Hex(n: nat): string {
    if n < 16 then [HEX[n]] else Hex(n / 16) + [HEX[n % 16]]
  }

  /** The key of a session under the election prefix: its lease in hexadecimal. */
  function MyKey(pfx: string, lease: int): string {
    pfx + (if lease < 0 then "-" + Hex(-lease) else Hex(lease))
  }

  lemma DigitInjective(a: nat, b: nat)
    requires a < 16 && b < 16 && HEX[a] == HEX[b]
    ensures a == b
  {
  }

  lemma {:induction false} HexInjective(a: nat, b: nat)
    requires Hex(a) == Hex(b)
    ensures a == b
  {
    HexLength(a);
    HexLength(b);
    var s, t := Hex(a), Hex(b);
    DigitInjective(a % 16, b % 16);
    if a >= 16 && b >= 16 {
      assert s[..|s| - 1] == Hex(a / 16) && t[..|t| - 1] == Hex(b / 16);
      HexInjective(a / 16, b / 16);
    }
  }

  lemma {:induction false} HexLength(n: nat)
    ensures |Hex(n)| >= 1 && Hex(n)[|Hex(n)| - 1] == HEX[n % 16]
    ensures |Hex(n)| == 1 <==> n < 16
    ensures Hex(n)[0] != '-'
  {
    if n >= 16 {
      HexLength(n / 16);
    }
  }

  /** Different leases give different keys. */
  lemma KeyInjective(pfx: string, a: int, b: int)
    requires MyKey(pfx, a) == MyKey(pfx, b)
    ensures a == b
  {
    hide Hex;
    var s, t := MyKey(pfx, a)[|pfx|..], MyKey(pfx, b)[|pfx|..];
    FirstSign(pfx, a);
    FirstSign(pfx, b);
    if a < 0 && b < 0 {
      assert s[1..] == Hex(-a) && t[1..] == Hex(-b);
      HexInjective(-a, -b);
    } else if a >= 0 && b >= 0 {
      assert s == Hex(a) && t == Hex(b);
      HexInjective(a, b);
    }
  }

  lemma FirstSign(pfx: string, a: int)
    ensures |MyKey(pfx, a)| > |pfx| && (MyKey(pfx, a)[|pfx|] == '-' <==> a < 0)
  {
    hide Hex;
    if a >= 0 {
      HexLength(a);
    }
  }

  // ---------------------------------------------------------------- the protocol

  /** An election object of a session; leaderRev is set once a campaign has got through. */
  datatype Election = Election(lease: int, leaderRev: int, isLeader: bool)

  /** A call of Campaign under way: begun, waiting for earlier keys to go, or through with waiting. */
  datatype Attempt = Begun(election: nat) | Waiting(election: nat, rev: int) | Passed(election: nat, rev: int)

  /** keys maps each stored key of the election to its create revision. */
  datatype World = World(keys: map<string, int>, rev: int, elections: seq<Election>, attempts: map<nat, Attempt>)

  datatype Event =
    | NewElection(lease: int)
    | CampaignBegins(attempt: nat, election: nat)
    | CampaignTxn(attempt: nat, header: int)
    | WaitProbe(attempt: nat)
    | WaitFails(attempt: nat)
    | TakeOffice(attempt: nat)
    | ResignClears(election: nat)
    | KeyPut(key: string)
    | KeyGone(key: string)
    | OtherWrite

  /** The waiting query: nobody was created before rev. */
  ghost predicate NoEarlier(keys: map<string, int>, rev: int) {
    forall k :: k in keys ==> keys[k] >= rev
  }

  /** Creates the key at the next revision, or keeps its create revision. */
  function PutKey(w: World, k: string): World {
    w.(keys := if k in w.keys then w.keys else w.keys[k := w.rev + 1], rev := w.rev + 1)
  }

  /**
   * KeyPut is any client's write, KeyGone any deletion: the second half of a resignation, a
   * lease that ran out, another client. The header of a creating transaction may report a
   * revision later than the one it created the key at.
   */
  ghost function Step(pfx: string, w: World, e: Event): World {
    match e
    case NewElection(lease) => w.(elections := w.elections + [Election(lease, 0, false)])
    case CampaignBegins(a, i) =>
      if i < |w.elections| && !w.elections[i].isLeader then w.(attempts := w.attempts[a := Begun(i)]) else w
    case CampaignTxn(a, header) =>
      if a !in w.attempts || !w.attempts[a].Begun? || w.attempts[a].election >= |w.elections| then w
      else
        var i := w.attempts[a].election;
        var k := MyKey(pfx, w.elections[i].lease);
        if k in w.keys then w.(attempts := w.attempts[a := Waiting(i, w.keys[k])])
        else
          var r := if header > w.rev + 1 then header else w.rev + 1;
          PutKey(w, k).(attempts := w.attempts[a := Waiting(i, r)], rev := r)
    case WaitProbe(a) =>
      if a in w.attempts && w.attempts[a].Waiting? && NoEarlier(w.keys, w.attempts[a].rev)
      then w.(attempts := w.attempts[a := Passed(w.attempts[a].election, w.attempts[a].rev)])
      else w
    case WaitFails(a) => w.(attempts := w.attempts - {a})
    case TakeOffice(a) =>
      if a in w.attempts && w.attempts[a].Passed? && w.attempts[a].election < |w.elections|
      then
        var i := w.attempts[a].election;
        w.(elections := w.elections[i := w.elections[i].(leaderRev := w.attempts[a].rev, isLeader := true)],
           attempts := w.attempts - {a})
      else w
    case ResignClears(i) =>
      if i < |w.elections| then w.(elections := w.elections[i := w.elections[i].(isLeader := false)]) else w
    case KeyPut(k) => PutKey(w, k)
    case KeyGone(k) => if k in w.keys then w.(keys := w.keys - {k}, rev := w.rev + 1) else w
    case OtherWrite => w.(rev := w.rev + 1)
  }

  ghost function Run(pfx: string, es: seq<Event>): World {
    if es == [] then World(map[], 0, [], map[]) else Step(pfx, Run(pfx, es[..|es| - 1]), es[|es| - 1])
  }

  // ---------------------------------------------------------------- safety

  /** Create revisions are in the past and belong to one key each. */
  ghost predicate KeysOk(w: World) {
    && (forall k :: k in w.keys ==> w.keys[k] <= w.rev)
    && (forall j, k :: j in w.keys && k in w.keys && w.keys[j] == w.keys[k] ==> j == k)
  }

  /** Once nobody is earlier than rev, nobody ever will be. */
  ghost predicate First(w: World, rev: int) {
    rev <= w.rev && NoEarlier(w.keys, rev)
  }

  ghost predicate Inv(w: World) {
    && KeysOk(w)
    && (forall a :: a in w.attempts && !w.attempts[a].Begun? ==> w.attempts[a].rev <= w.rev)
    && (forall a :: a in w.attempts && w.attempts[a].Passed? ==> First(w, w.attempts[a].rev))
    && (forall i :: 0 <= i < |w.elections| && w.elections[i].isLeader ==> First(w, w.elections[i].leaderRev))
  }

  lemma FirstStays(pfx: string, w: World, e: Event, rev: int)
    requires KeysOk(w) && First(w, rev)
    ensures First(Step(pfx, w, e), rev)
  {
    hide MyKey;
  }

  lemma KeysStayOk(pfx: string, w: World, e: Event)
    requires KeysOk(w)
    ensures KeysOk(Step(pfx, w, e)) && w.rev <= Step(pfx, w, e).rev
  {
    hide MyKey;
  }

  lemma StepInv(pfx: string, w: World, e: Event)
    requires Inv(w)
    ensures Inv(Step(pfx, w, e))
  {
    hide MyKey, First;
    KeysStayOk(pfx, w, e);
    var w' := Step(pfx, w, e);
    forall a | a in w'.attempts && w'.attempts[a].Passed?
      ensures First(w', w'.attempts[a].rev)
    {
      if a in w.attempts && w.attempts[a] == w'.attempts[a] {
        FirstStays(pfx, w, e, w.attempts[a].rev);
      } else {
        ProbeIsFirst(w, w.attempts[a].rev);
        FirstStays(pfx, w, e, w.attempts[a].rev);
      }
    }
    forall i | 0 <= i < |w'.elections| && w'.elections[i].isLeader
      ensures First(w', w'.elections[i].leaderRev)
    {
      if i < |w.elections| && w.elections[i] == w'.elections[i] {
        FirstStays(pfx, w, e, w.elections[i].leaderRev);
      } else {
        FirstStays(pfx, w, e, w.attempts[e.attempt].rev);
      }
    }
  }

  lemma ProbeIsFirst(w: World, rev: int)
    requires rev <= w.rev && NoEarlier(w.keys, rev)
    ensures First(w, rev)
  {
  }

  lemma {:induction false} RunInv(pfx: string, es: seq<Event>)
    ensures Inv(Run(pfx, es))
  {
    hide Step;
    if es != [] {
      RunInv(pfx, es[..|es| - 1]);
      StepInv(pfx, Run(pfx, es[..|es| - 1]), es[|es| - 1]);
    }
  }

  /** The election holds office: it is set as leader and its key is still stored as it was created. */
  ghost predicate Leads(pfx: string, w: World, i: nat) {
    && i < |w.elections|
    && w.elections[i].isLeader
    && MyKey(pfx, w.elections[i].lease) in w.keys
    && w.keys[MyKey(pfx, w.elections[i].lease)] == w.elections[i].leaderRev
  }

  /** In every run at most one session leads. */
  lemma ElectionSafety(pfx: string, es: seq<Event>, i: nat, j: nat)
    requires Leads(pfx, Run(pfx, es), i) && Leads(pfx, Run(pfx, es), j)
    ensures Run(pfx, es).elections[i].lease == Run(pfx, es).elections[j].lease
  {
    hide MyKey, Run;
    RunInv(pfx, es);
    var w := Run(pfx, es);
    var a, b := w.elections[i], w.elections[j];
    assert First(w, a.leaderRev) && First(w, b.leaderRev);
    assert w.keys[MyKey(pfx, a.lease)] >= b.leaderRev && w.keys[MyKey(pfx, b.lease)] >= a.leaderRev;
    KeyInjective(pfx, a.lease, b.lease);
  }

  /** What a leader query answers: the first created key. */
  ghost predicate IsFirstCreated(keys: map<string, int>, k: string) {
    k in keys && forall j :: j in keys ==> keys[k] <= keys[j]
  }

  /** The leader query names the key of the session that leads, and no other. */
  lemma LeaderQueryAgrees(pfx: string, es: seq<Event>, i: nat, k: string)
    requires Leads(pfx, Run(pfx, es), i)
    ensures IsFirstCreated(Run(pfx, es).keys, k) <==> k == MyKey(pfx, Run(pfx, es).elections[i].lease)
  {
    hide MyKey, Run;
    RunInv(pfx, es);
    var w := Run(pfx, es);
    assert First(w, w.elections[i].leaderRev);
    var mine := MyKey(pfx, w.elections[i].lease);
    if IsFirstCreated(w.keys, k) {
      assert w.keys[k] <= w.keys[mine] && w.keys[mine] <= w.keys[k];
    }
  }

  lemma RunSnoc(pfx: string, es: seq<Event>, e: Event)
    ensures Run(pfx, es + [e]) == Step(pfx, Run(pfx, es), e)
  {
    assert (es + [e])[..|es|] == es;
  }

  lemma RunNothing(pfx: string) returns (es: seq<Event>)
    ensures es == [] && Run(pfx, es) == World(map[], 0, [], map[])
  {
    es := [];
  }

  // ---------------------------------------------------------------- who is set as leader

  /** This step ends a campaign of election i in office. */
  ghost predicate TakesOffice(w: World, e: Event, i: nat) {
    && e.TakeOffice? && e.attempt in w.attempts && w.attempts[e.attempt].Passed?
    && w.attempts[e.attempt].election == i && i < |w.elections|
  }

  ghost predicate SetLeader(w: World, i: nat) {
    i < |w.elections| && w.elections[i].isLeader
  }

  lemma OfficeStep(pfx: string, w: World, e: Event, i: nat)
    ensures SetLeader(Step(pfx, w, e), i) <==> TakesOffice(w, e, i) || (SetLeader(w, i) && e != ResignClears(i))
  {
    hide MyKey, NoEarlier;
  }

  lemma RunOffice(pfx: string, es: seq<Event>, i: nat, k: nat)
    requires k < |es|
    ensures var w := Run(pfx, es[..k]);
            SetLeader(Run(pfx, es[..k + 1]), i) <==> TakesOffice(w, es[k], i) || (SetLeader(w, i) && es[k] != ResignClears(i))
  {
    hide Step, SetLeader, TakesOffice, Run;
    assert es[..k + 1] == es[..k] + [es[k]];
    RunSnoc(pfx, es[..k], es[k]);
    OfficeStep(pfx, Run(pfx, es[..k]), es[k], i);
  }

  /** Step k put election i in office and it has not resigned since. */
  ghost predicate InOfficeSince(pfx: string, es: seq<Event>, i: nat, k: int) {
    && 0 <= k < |es| && TakesOffice(Run(pfx, es[..k]), es[k], i)
    && forall j :: k < j < |es| ==> es[j] != ResignClears(i)
  }

  /** In every run an election is set as leader exactly when a campaign of it got through and it has not
      resigned since. */
  lemma OfficeExact(pfx: string, es: seq<Event>, i: nat)
    ensures SetLeader(Run(pfx, es), i) <==> exists k :: InOfficeSince(pfx, es, i, k)
  {
    hide Step, SetLeader, TakesOffice, Run;
    var fact := (k: nat) => k <= |es| && SetLeader(Run(pfx, es[..k]), i);
    var starts := (k: nat) => k < |es| && TakesOffice(Run(pfx, es[..k]), es[k], i);
    var ends := (k: nat) => k < |es| && es[k] == ResignClears(i);
    forall k | 0 <= k < |es|
      ensures fact(k + 1) <==> starts(k) || (fact(k) && !ends(k))
    {
      RunOffice(pfx, es, i, k);
    }
    NobodySet(pfx, i);
    assert es[..0] == [] && es[..|es|] == es;
    Histories.Since(|es|, fact, starts, ends);
    forall k | 0 <= k < |es|
      ensures InOfficeSince(pfx, es, i, k) <==> starts(k) && forall j :: k < j < |es| ==> !ends(j)
    {
      assert forall j :: k < j < |es| ==> (ends(j) <==> es[j] == ResignClears(i));
    }
  }

  lemma NobodySet(pfx: string, i: nat)
    ensures !SetLeader(Run(pfx, []), i)
  {
  }

  /** A campaign that finds key k missing creates it; so does any client's put. */
  ghost predicate Creates(pfx: string, w: World, e: Event, k: string) {
    match e
    case KeyPut(j) => j == k
    case CampaignTxn(a, _) =>
      a in w.attempts && w.attempts[a].Begun? && w.attempts[a].election < |w.elections|
      && MyKey(pfx, w.elections[w.attempts[a].election].lease) == k
    case _ => false
  }

  lemma KeyStep(pfx: string, w: World, e: Event, k: string)
    ensures k in Step(pfx, w, e).keys <==> Creates(pfx, w, e, k) || (k in w.keys && e != KeyGone(k))
    ensures k in w.keys && e != KeyGone(k) ==> Step(pfx, w, e).keys[k] == w.keys[k]
    ensures k !in w.keys && Creates(pfx, w, e, k) ==> Step(pfx, w, e).keys[k] == w.rev + 1
  {
    hide MyKey, NoEarlier;
  }

  /** A campaign of the only candidate, from begin to office. */
  lemma WinAlone(pfx: string, before: seq<Event>, i: nat) returns (es: seq<Event>)
    requires var w := Run(pfx, before); i < |w.elections| && !w.elections[i].isLeader && w.keys == map[]
    ensures var w, w' := Run(pfx, before), Run(pfx, es);
            && w'.keys == map[MyKey(pfx, w.elections[i].lease) := w.rev + 1]
            && w'.elections == w.elections[i := Election(w.elections[i].lease, w.rev + 1, true)]
  {
    hide Run, MyKey;
    es := before;
    var txn := CampaignTxn(0, Run(pfx, before).rev);
    RunSnoc(pfx, es, CampaignBegins(0, i));
    es := es + [CampaignBegins(0, i)];
    RunSnoc(pfx, es, txn);
    es := es + [txn];
    RunSnoc(pfx, es, WaitProbe(0));
    es := es + [WaitProbe(0)];
    RunSnoc(pfx, es, TakeOffice(0));
    es := es + [TakeOffice(0)];
  }

  /** Being set as leader is not enough: after a lease has run out, two sessions can both be set. */
  lemma TwoBelieveTheyLead(pfx: string) returns (es: seq<Event>)
    ensures var w := Run(pfx, es);
            && |w.elections| == 2 && w.elections[0].isLeader && w.elections[1].isLeader
            && w.elections[0].lease != w.elections[1].lease
            && !Leads(pfx, w, 0) && Leads(pfx, w, 1)
  {
    hide Run, MyKey;
    es := RunNothing(pfx);
    RunSnoc(pfx, es, NewElection(1));
    es := es + [NewElection(1)];
    RunSnoc(pfx, es, NewElection(2));
    es := es + [NewElection(2)];
    es := WinAlone(pfx, es, 0);
    var gone := KeyGone(MyKey(pfx, 1));
    RunSnoc(pfx, es, gone);
    es := es + [gone];
    assert Run(pfx, es).keys == map[];
    es := WinAlone(pfx, es, 1);
    if MyKey(pfx, 1) == MyKey(pfx, 2) {
      KeyInjective(pfx, 1, 2);
    }
  }
}

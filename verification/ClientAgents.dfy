// The server's objects: one agent per connected client, and the pool's loops over
// them. Their effects are the server steps of ClientProtocol.
module ClientAgents {
  import opened Basics
  import Bags
  import opened CountMaps
  import opened SparseMaps
  import opened ClientProtocol
  import opened TaskConservation

  datatype ClientState = Connected | Activate | Working | InActivate | DisConnect

  class ClientAgent {
    var state: ClientState
    var txProcData: seq<Task>
    var rstData: Dense

    constructor ()
      ensures state == Connected && txProcData == [] && rstData == map[]
    {
      state, txProcData, rstData := Connected, [], map[];
    }

    /** Receive loop, RegReq. */
    method OnRegReq()
      modifies this`state
      ensures state == Activate
    {
      state := Activate;
    }

    /** Receive loop, DataRsp: merges a response into rst_data in place. */
    method OnDataRsp(data: Sparse)
      requires WellFormed(data)
      modifies this`rstData
      ensures rstData == Merge(old(rstData), Densify(data))
    {
      rstData := MergeSparse(rstData, data);
    }

    /** has_result is true when there is none. */
    method HasResult() returns (r: bool)
      ensures r <==> rstData == map[]
    {
      r := rstData == map[];
    }

    method FetchResult() returns (r: Dense)
      modifies this`rstData
      ensures r == old(rstData) && rstData == map[]
    {
      r := rstData;
      rstData := map[];
    }

    predicate Full()
      reads this
    {
      state != Activate || |txProcData| >= QUEUE_BOUND
    }

    method IsFull() returns (r: bool)
      ensures r == Full()
    {
      if state != Activate {
        return true;
      }
      r := |txProcData| >= QUEUE_BOUND;
    }

    /** publish_task, once the bounded channel has room. */
    method PublishTask(task: Task)
      requires |txProcData| < QUEUE_BOUND
      modifies this`txProcData
      ensures txProcData == old(txProcData) + [task]
    {
      txProcData := txProcData + [task];
    }

    /** Send loop, once the channel has a task. */
    method TakeTask() returns (task: Task)
      requires txProcData != []
      modifies this`txProcData
      ensures task == old(txProcData[0]) && txProcData == old(txProcData[1..])
    {
      task := txProcData[0];
      txProcData := txProcData[1..];
    }
  }

  /** The object is the agent's part of a protocol state. */
  ghost predicate IsAgentOf(c: ClientAgent, s: Sys)
    reads c
  {
    (c.state == Activate <==> s.active) && c.txProcData == s.taskQ && c.rstData == s.rst
  }

  /** Each server step of the protocol is one of the object's methods, or leaves it alone. */
  method Perform(c: ClientAgent, dec: Decoding, s: Sys, e: Event)
    requires IsAgentOf(c, s) && MapsWellFormed(s) && ServerSide(e) && Next(dec, s, e).Some?
    modifies c
    ensures IsAgentOf(c, Next(dec, s, e).value)
  {
    hide Merge, Densify, Canonical, Aligned, WellFormed;
    match e
    case Publish(task) => c.PublishTask(task);
    case SendTask => var task := c.TakeTask();
    case ServerReg => c.OnRegReq();
    case ServerData => c.OnDataRsp(s.up[0].counts);
    case Fetch => var r := c.FetchResult();
    case _ =>
  }

  /** The client decode gives its task to: the first that is not full, or else the first. */
  function Selected(full: seq<bool>): Option<nat> {
    if full == [] then None else Some(FirstFree(full, 0))
  }

  function FirstFree(full: seq<bool>, i: nat): nat
    decreases |full| - i
  {
    if i >= |full| then 0 else if !full[i] then i else FirstFree(full, i + 1)
  }

  /** What the selection means. */
  lemma SelectedIsFirstFree(full: seq<bool>)
    ensures Selected(full).None? <==> full == []
    ensures Selected(full).Some? ==>
      var k := Selected(full).value;
      && k < |full|
      && (full[k] ==> k == 0 && forall i :: 0 <= i < |full| ==> full[i])
      && (!full[k] ==> forall i :: 0 <= i < k ==> full[i])
  {
    if full != [] {
      FirstFreeFrom(full, 0);
    }
  }

  lemma {:induction false} FirstFreeFrom(full: seq<bool>, i: nat)
    requires i <= |full|
    ensures var k := FirstFree(full, i);
      || (i <= k < |full| && !full[k] && forall j :: i <= j < k ==> full[j])
      || (k == 0 && forall j :: i <= j < |full| ==> full[j])
    decreases |full| - i
  {
    if i < |full| && full[i] {
      FirstFreeFrom(full, i + 1);
    }
  }

  function FullFlags(clients: seq<ClientAgent>): (f: seq<bool>)
    reads clients
    ensures |f| == |clients| && forall i :: 0 <= i < |f| ==> f[i] == clients[i].Full()
  {
    if clients == [] then [] else [clients[0].Full()] + FullFlags(clients[1..])
  }

  /** The agent's client has registered, and its channel has room. */
  predicate Ready(c: ClientAgent)
    reads c
  {
    c.state == Activate && |c.txProcData| < 1024
  }

  /** The selected client is the first that is ready, or the first of all when none is. */
  lemma SelectedIsReady(clients: seq<ClientAgent>)
    ensures Selected(FullFlags(clients)).None? <==> clients == []
    ensures Selected(FullFlags(clients)).Some? ==>
      var k := Selected(FullFlags(clients)).value;
      && k < |clients|
      && (forall i :: 0 <= i < k ==> !Ready(clients[i]))
      && (Ready(clients[k]) || (k == 0 && forall i :: 0 <= i < |clients| ==> !Ready(clients[i])))
  {
    hide Selected;
    var f := FullFlags(clients);
    SelectedIsFirstFree(f);
    forall i | 0 <= i < |clients| ensures f[i] == !Ready(clients[i]) {
    }
  }

  /** The selection loop of ClientPool::decode. */
  method SelectClient(clients: seq<ClientAgent>) returns (select: Option<nat>)
    ensures select == Selected(FullFlags(clients))
    ensures select.None? <==> clients == []
    ensures select.Some? ==>
      var k := select.value;
      && k < |clients|
      && (forall i :: 0 <= i < k ==> !Ready(clients[i]))
      && (Ready(clients[k]) || (k == 0 && forall i :: 0 <= i < |clients| ==> !Ready(clients[i])))
  {
    hide Ready;
    select := if |clients| > 0 then Some(0) else None;
    for i := 0 to |clients|
      invariant select == if |clients| > 0 then Some(0) else None
      invariant FirstFree(FullFlags(clients), 0) == FirstFree(FullFlags(clients), i)
    {
      var f := clients[i].IsFull();
      if !f {
        select := Some(i);
        break;
      }
    }
    SelectedIsReady(clients);
  }

  // ---- get_result -------------------------------------------------------------------------

  /**
   * The responses that land on one client while get_result runs: before its check, which
   * includes all the time spent on earlier clients, between check and fetch, and after.
   */
  datatype Landing = Landing(before: seq<Sparse>, between: seq<Sparse>, after: seq<Sparse>)

  ghost predicate AllWellFormed(rsps: seq<Sparse>) {
    forall i :: 0 <= i < |rsps| ==> WellFormed(rsps[i])
  }

  ghost predicate LandsWell(l: Landing) {
    AllWellFormed(l.before) && AllWellFormed(l.between) && AllWellFormed(l.after)
  }

  /** What some responses add up to. */
  ghost function Arrived(rsps: seq<Sparse>): Dense {
    if rsps == [] then map[] else Merge(Arrived(rsps[..|rsps| - 1]), Densify(rsps[|rsps| - 1]))
  }

  /** What a client holds when it is checked, and when it is fetched from. */
  ghost function AtCheck(held: Dense, l: Landing): Dense { Merge(held, Arrived(l.before)) }

  ghost function AtFetch(held: Dense, l: Landing): Dense { Merge(AtCheck(held, l), Arrived(l.between)) }

  /** What get_result takes from a client, and what the client holds at the end. */
  ghost function Taken(held: Dense, l: Landing): Dense {
    if AtCheck(held, l) == map[] then AtFetch(held, l) else map[]
  }

  ghost function Left(held: Dense, l: Landing): Dense {
    Merge(if AtCheck(held, l) == map[] then map[] else AtFetch(held, l), Arrived(l.after))
  }

  /** The same for all clients. */
  ghost function ForAll(f: (Dense, Landing) -> Dense, held: seq<Dense>, ls: seq<Landing>): seq<Dense>
    requires |held| == |ls|
  {
    seq(|held|, i requires 0 <= i < |held| => f(held[i], ls[i]))
  }

  /** Responses land on one client. */
  method Land(c: ClientAgent, rsps: seq<Sparse>)
    requires AllWellFormed(rsps)
    modifies c`rstData
    ensures c.rstData == Merge(old(c.rstData), Arrived(rsps))
  {
    hide Merge;
    MergeNothing(c.rstData);
    for i := 0 to |rsps|
      invariant c.rstData == Merge(old(c.rstData), Arrived(rsps[..i]))
    {
      assert rsps[..i + 1][..i] == rsps[..i];
      MergeAssociates(old(c.rstData), Arrived(rsps[..i]), Densify(rsps[i]));
      c.OnDataRsp(rsps[i]);
    }
    assert rsps[..|rsps|] == rsps;
  }

  ghost function HeldBy(clients: seq<ClientAgent>): (h: seq<Dense>)
    reads clients
    ensures |h| == |clients| && forall i :: 0 <= i < |h| ==> h[i] == clients[i].rstData
  {
    if clients == [] then [] else [clients[0].rstData] + HeldBy(clients[1..])
  }

  /** One client's turn in get_result. */
  method GetFrom(c: ClientAgent, l: Landing, rst: Dense) returns (r: Dense)
    requires LandsWell(l)
    modifies c`rstData
    ensures c.rstData == Left(old(c.rstData), l)
    ensures r == Merge(rst, Taken(old(c.rstData), l))
  {
    hide Merge, Arrived;
    r := rst;
    MergeNothing(rst);
    Land(c, l.before);
    var has := c.HasResult();
    Land(c, l.between);
    if has {
      var fetched := c.FetchResult();
      r := MergeDense(rst, fetched);
    }
    Land(c, l.after);
  }

  lemma MergeNothing(m: Dense)
    ensures Merge(m, map[]) == m && Merge(map[], m) == m
  {
  }

  /**
   * get_result, whatever lands on whichever client at whatever moment: it returns the
   * merge of what it takes from each client, and each client keeps the rest.
   */
  method GetResult(clients: seq<ClientAgent>, ls: seq<Landing>) returns (rst: Dense)
    requires |ls| == |clients|
    requires forall i, j :: 0 <= i < j < |clients| ==> clients[i] != clients[j]
    requires forall i :: 0 <= i < |clients| ==> LandsWell(ls[i])
    modifies set c | c in clients
    ensures rst == MergeAll(ForAll(Taken, old(HeldBy(clients)), ls))
    ensures HeldBy(clients) == ForAll(Left, old(HeldBy(clients)), ls)
  {
    hide Merge, MergeAll, Arrived, HeldBy, Taken, Left;
    ghost var held := HeldBy(clients);
    ghost var parts := ForAll(Taken, held, ls);
    rst := map[];
    assert MergeAll([]) == map[] by {
      MergeAllNone();
    }
    for i := 0 to |clients|
      invariant forall k :: 0 <= k < |clients| ==>
        clients[k].rstData == if k < i then Left(held[k], ls[k]) else held[k]
      invariant rst == MergeAll(parts[..i])
    {
      rst := GetFrom(clients[i], ls[i], rst);
      MergeAllSnoc(parts[..i], parts[i]);
      assert parts[..i + 1] == parts[..i] + [parts[i]];
    }
    assert parts[..|clients|] == parts;
  }

  lemma MergeAllNone()
    ensures MergeAll([]) == map[]
  {
  }

  lemma MergeAllSnoc(ms: seq<Dense>, m: Dense)
    ensures MergeAll(ms + [m]) == Merge(MergeAll(ms), m)
  {
    MergeAllRemove(ms + [m], |ms|);
    assert (ms + [m])[..|ms|] + (ms + [m])[|ms| + 1..] == ms;
    MergeCommutes(m, MergeAll(ms));
  }

  // ---- What get_result hands out ------------------------------------------------------------

  /** What one client held and received: it is taken or left, and never both. */
  lemma TurnConserves(held: Dense, l: Landing)
    ensures Meaning(Taken(held, l)) + Meaning(Left(held, l))
         == Meaning(held) + Meaning(Arrived(l.before)) + Meaning(Arrived(l.between)) + Meaning(Arrived(l.after))
  {
    hide Merge, Meaning, Arrived;
    MergeMeaning(held, Arrived(l.before));
    MergeMeaning(AtCheck(held, l), Arrived(l.between));
    MergeMeaning(map[], Arrived(l.after));
    MergeMeaning(AtFetch(held, l), Arrived(l.after));
    MeaningOfEmpty();
  }

  /** All that lands on a client while get_result runs. */
  ghost function Landed(l: Landing): multiset<Loc> {
    Meaning(Arrived(l.before)) + Meaning(Arrived(l.between)) + Meaning(Arrived(l.after))
  }

  lemma Exchange<X>(a: multiset<X>, b: multiset<X>, c: multiset<X>, d: multiset<X>,
                    a': multiset<X>, b': multiset<X>, c': multiset<X>, d': multiset<X>)
    requires a + b == c + d && a' + b' == c' + d'
    ensures (a + a') + (b + b') == (c + c') + (d + d')
  {
    calc {
      (a + a') + (b + b');
      (a + b) + (a' + b');
      (c + d) + (c' + d');
      (c + c') + (d + d');
    }
  }

  lemma {:induction false} TurnsConserve(held: seq<Dense>, ls: seq<Landing>)
    requires |held| == |ls|
    ensures Bags.Sum(ForAll(Taken, held, ls), Meaning) + Bags.Sum(ForAll(Left, held, ls), Meaning)
         == Bags.Sum(held, Meaning) + Bags.Sum(ls, Landed)
  {
    hide Meaning, Taken, Left, Landed;
    if held != [] {
      var h, l := held[1..], ls[1..];
      TurnsConserve(h, l);
      assert ForAll(Taken, held, ls)[1..] == ForAll(Taken, h, l);
      assert ForAll(Left, held, ls)[1..] == ForAll(Left, h, l);
      TurnLanded(held[0], ls[0]);
      Exchange(Meaning(Taken(held[0], ls[0])), Meaning(Left(held[0], ls[0])), Meaning(held[0]), Landed(ls[0]),
               Bags.Sum(ForAll(Taken, h, l), Meaning), Bags.Sum(ForAll(Left, h, l), Meaning),
               Bags.Sum(h, Meaning), Bags.Sum(l, Landed));
    }
  }

  lemma TurnLanded(held: Dense, l: Landing)
    ensures Meaning(Taken(held, l)) + Meaning(Left(held, l)) == Meaning(held) + Landed(l)
  {
    hide Meaning, Taken, Left;
    TurnConserves(held, l);
  }

  /** For every timing of responses get_result loses and doubles nothing. */
  lemma GetResultConserves(held: seq<Dense>, ls: seq<Landing>)
    requires |held| == |ls|
    ensures Meaning(MergeAll(ForAll(Taken, held, ls))) + Bags.Sum(ForAll(Left, held, ls), Meaning)
         == Bags.Sum(held, Meaning) + Bags.Sum(ls, Landed)
  {
    hide Meaning, Taken, Left, MergeAll, Bags.Sum, Landed;
    MergeAllMeaning(ForAll(Taken, held, ls));
    TurnsConserve(held, ls);
  }

  /** Some client is not empty when it is checked. */
  ghost predicate SomeoneHolds(held: seq<Dense>, ls: seq<Landing>)
    requires |held| == |ls|
  {
    exists i :: 0 <= i < |held| && AtCheck(held[i], ls[i]) != map[]
  }

  /** Every map a client can hold has no empty page. */
  ghost predicate AllCanonical(held: seq<Dense>, ls: seq<Landing>)
    requires |held| == |ls|
  {
    forall i :: 0 <= i < |held| ==> Canonical(AtCheck(held[i], ls[i])) && Canonical(AtFetch(held[i], ls[i]))
  }

  lemma NonEmptyCounts(m: Dense)
    requires Canonical(m) && m != map[]
    ensures Total(m) > 0
  {
    var p :| p in m;
    var i :| 0 <= i < PAGE_SIZE && m[p][i] > 0;
    MeaningSize(m);
    MeaningAt(m, Loc(p, i));
    assert Loc(p, i) in Meaning(m);
  }

  /** What is skipped at one client is counted in AtFetch and missing from Taken. */
  lemma TurnTotals(held: Dense, l: Landing)
    requires Canonical(AtCheck(held, l))
    ensures Total(Taken(held, l)) <= Total(AtFetch(held, l))
    ensures Total(Taken(held, l)) == Total(AtFetch(held, l)) <==> AtCheck(held, l) == map[]
  {
    if AtCheck(held, l) != map[] {
      hide Merge, Total, Canonical, Arrived;
      NonEmptyCounts(AtCheck(held, l));
      MergeTotal(AtCheck(held, l), Arrived(l.between));
      TotalOfNothing();
    }
  }

  lemma TotalOfNothing()
    ensures Total(map[]) == 0
  {
  }

  lemma {:induction false} TotalsIff(held: seq<Dense>, ls: seq<Landing>)
    requires |held| == |ls| && AllCanonical(held, ls)
    ensures SumTotals(ForAll(Taken, held, ls)) <= SumTotals(ForAll(AtFetch, held, ls))
    ensures SumTotals(ForAll(Taken, held, ls)) == SumTotals(ForAll(AtFetch, held, ls)) <==> !SomeoneHolds(held, ls)
  {
    hide Taken, AtFetch, AtCheck, Total, Canonical;
    if held != [] {
      var h, l := held[1..], ls[1..];
      assert forall i :: 0 <= i < |h| ==> h[i] == held[i + 1] && l[i] == ls[i + 1];
      TotalsIff(h, l);
      TurnTotals(held[0], ls[0]);
      assert ForAll(Taken, held, ls)[1..] == ForAll(Taken, h, l);
      assert ForAll(AtFetch, held, ls)[1..] == ForAll(AtFetch, h, l);
      if SomeoneHolds(held, ls) {
        var i :| 0 <= i < |held| && AtCheck(held[i], ls[i]) != map[];
        assert i == 0 || AtCheck(h[i - 1], l[i - 1]) != map[];
      }
    }
  }

  /**
   * get_result hands out everything the clients hold when it comes to fetch from them if
   * and only if no client holds anything when it is checked.
   */
  lemma AllHandedOutIff(held: seq<Dense>, ls: seq<Landing>)
    requires |held| == |ls| && AllCanonical(held, ls)
    ensures MergeAll(ForAll(Taken, held, ls)) == MergeAll(ForAll(AtFetch, held, ls)) <==> !SomeoneHolds(held, ls)
  {
    hide AllCanonical, SomeoneHolds, Total, MergeAll;
    TotalsIff(held, ls);
    MergeAllTotal(ForAll(Taken, held, ls));
    MergeAllTotal(ForAll(AtFetch, held, ls));
    if !SomeoneHolds(held, ls) {
      NobodyHolds(held, ls);
    }
  }

  lemma NobodyHolds(held: seq<Dense>, ls: seq<Landing>)
    requires |held| == |ls| && !SomeoneHolds(held, ls)
    ensures ForAll(Taken, held, ls) == ForAll(AtFetch, held, ls)
  {
    hide AtFetch, AtCheck;
    forall i | 0 <= i < |held| ensures Taken(held[i], ls[i]) == AtFetch(held[i], ls[i]) {
      assert AtCheck(held[i], ls[i]) == map[];
    }
  }
}

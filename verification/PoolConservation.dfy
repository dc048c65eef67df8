// The pool: any number of clients, each with its own wires, agent and workers, and
// the one task at a time that decode is choosing a client for. The accept loop adds
// clients between two calls of decode, never during one, because decode holds the
// read lock. Tasks are lost exactly while no client has connected; all others are
// conserved across the clients, and any two drained pools agree on the total.
module PoolConservation {
  import opened Basics
  import opened Bags
  import opened CountMaps
  import opened ClientProtocol
  import opened TaskConservation
  import opened ClientAgents
  import ClientOrder
  import SparseMaps

  /** The accept loop ends once more than 32 clients have been added. */
  const LAST_ACCEPT: nat := 32

  /** Where decode is: waiting for a task, asking clients in turn, or inside publish_task. */
  datatype Progress = Resting | Looking(task: Task, next: nat) | Handing(task: Task, client: nat)

  datatype Pool = Pool(
    clients: seq<Sys>,
    progress: Progress,
    submitted: seq<Task>,  // history: what decode was called with
    lost: seq<Task>)       // history: tasks decode dropped

  datatype PoolEvent =
    | Connect(workers: nat)
    | Submit(task: Task)
    | Look
    | HandOver
    | At(client: nat, event: Event)

  function InitPool(): Pool { Pool([], Resting, [], []) }

  /** is_full, of an agent's part of the state. */
  predicate FullClient(c: Sys) { !c.active || |c.taskQ| >= QUEUE_BOUND }

  function ConnectStep(p: Pool, workers: nat): Option<Pool> {
    if p.progress.Resting? && |p.clients| <= LAST_ACCEPT then Some(p.(clients := p.clients + [Init(workers)]))
    else None
  }

  function SubmitStep(p: Pool, task: Task): Option<Pool> {
    if p.progress.Resting? then Some(p.(progress := Looking(task, 0), submitted := p.submitted + [task]))
    else None
  }

  /** One turn of the selection loop; its end falls back to the first client, if there is one. */
  function LookStep(p: Pool): Option<Pool> {
    if !p.progress.Looking? then None
    else if p.clients == [] then Some(p.(progress := Resting, lost := p.lost + [p.progress.task]))
    else if p.progress.next >= |p.clients| then Some(p.(progress := Handing(p.progress.task, 0)))
    else if FullClient(p.clients[p.progress.next]) then
      Some(p.(progress := Looking(p.progress.task, p.progress.next + 1)))
    else Some(p.(progress := Handing(p.progress.task, p.progress.next)))
  }

  /** publish_task returns: the chosen client's queue has room. */
  function HandOverStep(p: Pool): Option<Pool> {
    if p.progress.Handing? && p.progress.client < |p.clients| then
      var r := PublishStep(p.clients[p.progress.client], p.progress.task);
      if r.None? then None
      else Some(p.(progress := Resting, clients := p.clients[p.progress.client := r.value]))
    else None
  }

  /** Any step of one client and its agent other than the hand-over of a task. */
  ghost function AtStep(dec: Decoding, p: Pool, i: nat, e: Event): Option<Pool> {
    if i < |p.clients| && !e.Publish? then
      var r := Next(dec, p.clients[i], e);
      if r.None? then None else Some(p.(clients := p.clients[i := r.value]))
    else None
  }

  ghost function PoolNext(dec: Decoding, p: Pool, e: PoolEvent): Option<Pool> {
    match e
    case Connect(workers) => ConnectStep(p, workers)
    case Submit(task) => SubmitStep(p, task)
    case Look => LookStep(p)
    case HandOver => HandOverStep(p)
    case At(i, event) => AtStep(dec, p, i, event)
  }

  ghost function PoolRun(dec: Decoding, p: Pool, es: seq<PoolEvent>): Option<Pool>
    decreases |es|
  {
    if es == [] then Some(p) else
      var r := PoolNext(dec, p, es[0]);
      if r.None? then None else PoolRun(dec, r.value, es[1..])
  }

  ghost predicate PoolReachable(dec: Decoding, p: Pool) {
    exists es :: PoolRun(dec, InitPool(), es) == Some(p)
  }

  // ---- Each client runs the client protocol --------------------------------------------

  ghost predicate SomeRun(dec: Decoding, s: Sys) {
    exists n: nat :: Reachable(dec, n, s)
  }

  lemma SomeRunStep(dec: Decoding, s: Sys, e: Event)
    requires SomeRun(dec, s) && Next(dec, s, e).Some?
    ensures SomeRun(dec, Next(dec, s, e).value)
  {
    hide Next, Reachable;
    var n: nat :| Reachable(dec, n, s);
    ReachableNext(dec, n, s, e);
  }

  lemma SomeRunInit(dec: Decoding, n: nat)
    ensures SomeRun(dec, Init(n))
  {
    ReachableInit(dec, n);
  }

  ghost predicate ClientsReachable(dec: Decoding, p: Pool) {
    forall i :: 0 <= i < |p.clients| ==> SomeRun(dec, p.clients[i])
  }

  lemma ClientsStep(dec: Decoding, p: Pool, e: PoolEvent)
    requires ClientsReachable(dec, p) && PoolNext(dec, p, e).Some?
    ensures ClientsReachable(dec, PoolNext(dec, p, e).value)
  {
    hide Next, SomeRun;
    match e
    case Connect(n) => SomeRunInit(dec, n);
    case HandOver =>
      var c := p.clients[p.progress.client];
      PublishIsAStep(dec, c, p.progress.task);
      SomeRunStep(dec, c, Publish(p.progress.task));
    case At(i, event) => SomeRunStep(dec, p.clients[i], event);
    case _ =>
  }

  lemma PublishIsAStep(dec: Decoding, s: Sys, task: Task)
    ensures Next(dec, s, Publish(task)) == PublishStep(s, task)
  {
  }

  // ---- Tasks across the pool -------------------------------------------------------------

  ghost function PublishedBy(c: Sys): multiset<Task> { multiset(c.published) }

  /** The task decode is working on. */
  function InHand(p: Pool): seq<Task> {
    if p.progress.Resting? then [] else [p.progress.task]
  }

  /** Submissions of t, minus the places holding it. */
  ghost function PoolBalance(p: Pool, t: Task): int {
    multiset(p.submitted)[t] as int
      - (Sum(p.clients, PublishedBy)[t] + multiset(InHand(p))[t] + multiset(p.lost)[t]) as int
  }

  /** Only publishing changes what has been published. */
  lemma OnlyPublishPublishes(dec: Decoding, s: Sys, e: Event)
    requires Next(dec, s, e).Some? && !e.Publish?
    ensures Next(dec, s, e).value.published == s.published
  {
  }

  lemma ConnectBalance(p: Pool, n: nat, t: Task)
    requires ConnectStep(p, n).Some?
    ensures PoolBalance(ConnectStep(p, n).value, t) == PoolBalance(p, t)
  {
    hide Sum;
    SumSnocAt(p.clients, Init(n), PublishedBy, t);
  }

  lemma HandOverBalance(p: Pool, t: Task)
    requires HandOverStep(p).Some?
    ensures PoolBalance(HandOverStep(p).value, t) == PoolBalance(p, t)
  {
    hide Sum;
    var i, task := p.progress.client, p.progress.task;
    SumUpdateAt(p.clients, i, PublishStep(p.clients[i], task).value, PublishedBy, t);
  }

  lemma AtBalance(dec: Decoding, p: Pool, i: nat, e: Event, t: Task)
    requires AtStep(dec, p, i, e).Some?
    ensures PoolBalance(AtStep(dec, p, i, e).value, t) == PoolBalance(p, t)
  {
    hide Sum, Next;
    OnlyPublishPublishes(dec, p.clients[i], e);
    SumUpdateAt(p.clients, i, Next(dec, p.clients[i], e).value, PublishedBy, t);
  }

  lemma SubmitBalance(p: Pool, task: Task, t: Task)
    requires SubmitStep(p, task).Some?
    ensures PoolBalance(SubmitStep(p, task).value, t) == PoolBalance(p, t)
  {
    hide Sum;
    assert multiset(p.submitted + [task]) == multiset(p.submitted) + multiset([task]);
  }

  lemma LookBalance(p: Pool, t: Task)
    requires LookStep(p).Some?
    ensures PoolBalance(LookStep(p).value, t) == PoolBalance(p, t)
  {
    hide Sum, FullClient;
    var task, r := p.progress.task, LookStep(p).value;
    assert multiset(p.lost + [task]) == multiset(p.lost) + multiset([task]);
    assert r.progress.Resting? ==> InHand(r) == [];
  }

  lemma BalanceStep(dec: Decoding, p: Pool, e: PoolEvent, t: Task)
    requires PoolNext(dec, p, e).Some?
    ensures PoolBalance(PoolNext(dec, p, e).value, t) == PoolBalance(p, t)
  {
    hide PoolBalance, AtStep, HandOverStep, ConnectStep, SubmitStep, LookStep;
    match e
    case Connect(n) => ConnectBalance(p, n, t);
    case Submit(task) => SubmitBalance(p, task, t);
    case Look => LookBalance(p, t);
    case HandOver => HandOverBalance(p, t);
    case At(i, event) => AtBalance(dec, p, i, event, t);
  }

  /** Tasks are lost only while there is no client, so the lost ones are the first ones. */
  ghost predicate LostFirst(p: Pool) {
    && p.lost <= p.submitted
    && (p.clients == [] ==> p.lost + InHand(p) == p.submitted && !p.progress.Handing?)
    && (p.progress.Handing? ==> p.progress.client < |p.clients|)
  }

  lemma LostStep(dec: Decoding, p: Pool, e: PoolEvent)
    requires LostFirst(p) && PoolNext(dec, p, e).Some?
    ensures LostFirst(PoolNext(dec, p, e).value)
    ensures p.clients != [] ==> PoolNext(dec, p, e).value.lost == p.lost && PoolNext(dec, p, e).value.clients != []
  {
    hide Next;
  }

  ghost predicate PoolInv(dec: Decoding, p: Pool) {
    && ClientsReachable(dec, p) && LostFirst(p)
    && forall t :: PoolBalance(p, t) == 0
  }

  lemma {:induction false} PoolRunKeeps(dec: Decoding, p: Pool, es: seq<PoolEvent>)
    requires PoolInv(dec, p) && PoolRun(dec, p, es).Some?
    ensures PoolInv(dec, PoolRun(dec, p, es).value)
    ensures p.clients != [] ==> PoolRun(dec, p, es).value.lost == p.lost
    decreases |es|
  {
    hide PoolNext, PoolBalance, ClientsReachable, LostFirst;
    if es != [] {
      var r := PoolNext(dec, p, es[0]).value;
      ClientsStep(dec, p, es[0]);
      LostStep(dec, p, es[0]);
      forall t ensures PoolBalance(r, t) == 0 {
        BalanceStep(dec, p, es[0], t);
      }
      PoolRunKeeps(dec, r, es[1..]);
    }
  }

  lemma PoolReachableInv(dec: Decoding, p: Pool)
    requires PoolReachable(dec, p)
    ensures PoolInv(dec, p)
  {
    var es :| PoolRun(dec, InitPool(), es) == Some(p);
    PoolRunKeeps(dec, InitPool(), es);
  }

  /** Every client of the pool is in a reachable state of the protocol, so all its theorems apply. */
  lemma EveryClientRunsTheProtocol(dec: Decoding, p: Pool, i: nat)
    requires PoolReachable(dec, p) && i < |p.clients|
    ensures exists n: nat :: Reachable(dec, n, p.clients[i])
  {
    PoolReachableInv(dec, p);
    assert SomeRun(dec, p.clients[i]);
  }

  /**
   * The lost tasks are a prefix of the submitted ones: all of them as long as no client
   * has connected, and never one more after that.
   */
  lemma LostExactlyWhileThereIsNoClient(dec: Decoding, p: Pool, es: seq<PoolEvent>)
    requires PoolReachable(dec, p)
    ensures p.lost <= p.submitted
    ensures p.clients == [] ==> p.lost + InHand(p) == p.submitted
    ensures p.clients != [] && PoolRun(dec, p, es).Some? ==> PoolRun(dec, p, es).value.lost == p.lost
  {
    PoolReachableInv(dec, p);
    if PoolRun(dec, p, es).Some? {
      PoolRunKeeps(dec, p, es);
    }
  }

  // ---- Counts across the pool --------------------------------------------------------------

  ghost function DoneBy(c: Sys): multiset<Task> { c.done }

  lemma OneClient(dec: Decoding, c: Sys)
    requires SomeRun(dec, c)
    ensures PublishedBy(c) == Unfinished(c) + DoneBy(c)
    ensures Reported(c) == Weight(DoneBy(c), TaskBag(dec))
  {
    hide Unfinished, Reported, Weight, Inv, Reachable;
    var n: nat :| Reachable(dec, n, c);
    ReachableInv(dec, n, c);
    Equations(dec, c);
  }

  lemma {:induction false} ClientEquations(dec: Decoding, cs: seq<Sys>)
    requires forall i :: 0 <= i < |cs| ==> SomeRun(dec, cs[i])
    ensures Sum(cs, PublishedBy) == Sum(cs, Unfinished) + Sum(cs, DoneBy)
    ensures Sum(cs, Reported) == Weight(Sum(cs, DoneBy), TaskBag(dec))
  {
    hide Weight, Unfinished, Reported, SomeRun, PublishedBy, DoneBy;
    if cs == [] {
      NothingWeighs(TaskBag(dec));
    } else {
      OneClient(dec, cs[0]);
      ClientEquations(dec, cs[1..]);
      WeightUnion(DoneBy(cs[0]), Sum(cs[1..], DoneBy), TaskBag(dec));
    }
  }

  /**
   * Conservation across the pool, in every reachable state. Each submitted task is lost,
   * in decode's hands, or in exactly one place of exactly one client; and the counts
   * reported so far, plus the decoding of what is unfinished, in hand or lost, are the
   * decoding of all submitted tasks.
   */
  lemma PoolConserves(dec: Decoding, p: Pool)
    requires PoolReachable(dec, p)
    ensures var open := Sum(p.clients, Unfinished) + multiset(InHand(p)) + multiset(p.lost);
      && multiset(p.submitted) == open + Sum(p.clients, DoneBy)
      && Sum(p.clients, Reported) + Weight(open, TaskBag(dec)) == Weight(multiset(p.submitted), TaskBag(dec))
  {
    hide Unfinished, Reported, Weight, Sum;
    PoolReachableInv(dec, p);
    ClientEquations(dec, p.clients);
    var open := Sum(p.clients, Unfinished) + multiset(InHand(p)) + multiset(p.lost);
    forall t ensures multiset(p.submitted)[t] == (open + Sum(p.clients, DoneBy))[t] {
      assert PoolBalance(p, t) == 0;
    }
    WeightUnion(open, Sum(p.clients, DoneBy), TaskBag(dec));
  }

  // ---- Confluence ------------------------------------------------------------------------------

  /** What each client has contributed: all that get_result ever took from it, and what it still holds. */
  ghost function Held(cs: seq<Sys>): seq<Dense> {
    if cs == [] then [] else [Merge(cs[0].got, cs[0].rst)] + Held(cs[1..])
  }

  ghost predicate PoolDrained(p: Pool) {
    && p.progress.Resting?
    && forall i :: 0 <= i < |p.clients| ==> Drained(p.clients[i])
  }

  lemma {:induction false} DrainedClients(dec: Decoding, cs: seq<Sys>)
    requires forall i :: 0 <= i < |cs| ==> SomeRun(dec, cs[i]) && Drained(cs[i])
    ensures Meaning(MergeAll(Held(cs))) == Weight(Sum(cs, PublishedBy), TaskBag(dec))
    ensures Canonical(MergeAll(Held(cs)))
  {
    if cs == [] {
      MeaningOfEmpty();
    } else {
      var n: nat :| Reachable(dec, n, cs[0]);
      DrainedTotal(dec, n, cs[0]);
      DrainedClients(dec, cs[1..]);
      var m, rest := Merge(cs[0].got, cs[0].rst), MergeAll(Held(cs[1..]));
      assert MergeAll(Held(cs)) == Merge(m, rest) by {
        assert Held(cs)[1..] == Held(cs[1..]);
      }
      hide Merge, Meaning, Weight, Canonical, Reachable, Drained;
      MergeMeaning(m, rest);
      MergeKeeps(m, rest);
      WeightUnion(multiset(cs[0].published), Sum(cs[1..], PublishedBy), TaskBag(dec));
    }
  }

  /** A drained pool has counted exactly the tasks that were not lost. */
  lemma PoolDrainedTotal(dec: Decoding, p: Pool)
    requires PoolReachable(dec, p) && PoolDrained(p)
    ensures Meaning(MergeAll(Held(p.clients)))
         == Weight(multiset(p.submitted) - multiset(p.lost), TaskBag(dec))
    ensures Canonical(MergeAll(Held(p.clients)))
  {
    hide Meaning, Weight, Canonical, Sum;
    PoolReachableInv(dec, p);
    DrainedClients(dec, p.clients);
    var kept := multiset(p.submitted) - multiset(p.lost);
    forall t ensures kept[t] == Sum(p.clients, PublishedBy)[t] {
      assert PoolBalance(p, t) == 0;
    }
    assert kept == Sum(p.clients, PublishedBy);
  }

  /**
   * Confluence across pools: however many clients and workers, whichever client took which
   * task, whatever the interleaving and fetch times, the same kept tasks give the same map.
   */
  lemma PoolConfluence(dec: Decoding, p: Pool, q: Pool)
    requires PoolReachable(dec, p) && PoolDrained(p) && PoolReachable(dec, q) && PoolDrained(q)
    requires multiset(p.submitted) - multiset(p.lost) == multiset(q.submitted) - multiset(q.lost)
    ensures MergeAll(Held(p.clients)) == MergeAll(Held(q.clients))
  {
    PoolDrainedTotal(dec, p);
    PoolDrainedTotal(dec, q);
    CanonicalUnique(MergeAll(Held(p.clients)), MergeAll(Held(q.clients)));
  }

  // ---- The selection ---------------------------------------------------------------------------

  function Flags(cs: seq<Sys>): seq<bool> {
    seq(|cs|, i requires 0 <= i < |cs| => FullClient(cs[i]))
  }

  function Looks(n: nat): seq<PoolEvent> {
    seq(n, i => Look)
  }

  lemma {:induction false} LooksFrom(dec: Decoding, p: Pool) returns (n: nat)
    requires p.progress.Looking? && p.clients != [] && p.progress.next <= |p.clients|
    ensures PoolRun(dec, p, Looks(n))
         == Some(p.(progress := Handing(p.progress.task, FirstFree(Flags(p.clients), p.progress.next))))
    decreases |p.clients| - p.progress.next
  {
    var r := LookStep(p).value;
    if r.progress.Looking? {
      n := LooksFrom(dec, r);
      n := n + 1;
    } else {
      n := 1;
    }
    assert Looks(n)[1..] == Looks(n - 1);
    assert Looks(n)[0] == Look;
    assert PoolNext(dec, p, Look) == Some(r);
  }

  /** When nothing else moves, the loop picks the client that SelectClient picks. */
  lemma QuietSelection(dec: Decoding, p: Pool, task: Task) returns (n: nat)
    requires p.progress.Resting? && p.clients != []
    ensures Selected(Flags(p.clients)).Some?
    ensures PoolRun(dec, p, [Submit(task)] + Looks(n))
         == Some(p.(submitted := p.submitted + [task],
                    progress := Handing(task, Selected(Flags(p.clients)).value)))
  {
    var r := SubmitStep(p, task).value;
    n := LooksFrom(dec, r);
    assert ([Submit(task)] + Looks(n))[1..] == Looks(n);
    assert PoolNext(dec, p, Submit(task)) == Some(r);
  }

  // ---- Whom a task is given to -------------------------------------------------------------------

  /** A client is free exactly when it has registered and its queue takes another task. */
  lemma FreeIffItTakesTasks(c: Sys, task: Task)
    ensures !FullClient(c) <==> c.active && PublishStep(c, task).Some?
    ensures !FullClient(c) <==> c.active && |c.taskQ| < 1024
  {
  }

  /** The agent object's is_full and the step system's agree. */
  lemma AgentIsFullIff(c: ClientAgent, s: Sys)
    requires IsAgentOf(c, s)
    ensures c.Full() <==> FullClient(s)
  {
  }

  /** Over runs: a free client has no registration left to handle, and would take any task. */
  lemma FreeIsRegistered(dec: Decoding, p: Pool, i: nat, task: Task)
    requires PoolReachable(dec, p) && i < |p.clients|
    ensures !FullClient(p.clients[i]) <==>
      (forall k :: 0 <= k < |p.clients[i].up| ==> !p.clients[i].up[k].RegReq?) && PublishStep(p.clients[i], task).Some?
  {
    EveryClientRunsTheProtocol(dec, p, i);
    var n: nat :| Reachable(dec, n, p.clients[i]);
    hide Reachable, PoolReachable;
    ClientOrder.ActiveIffRegistered(dec, n, p.clients[i]);
    FreeIffItTakesTasks(p.clients[i], task);
  }

  /**
   * A client that the selection loop finds is registered, and taking the task is enabled
   * at once; only the fall-back to the first client can be another one.
   */
  lemma FoundClientIsReady(dec: Decoding, p: Pool)
    requires PoolReachable(dec, p) && LookStep(p).Some? && LookStep(p).value.progress.Handing?
    requires p.progress.next < |p.clients|
    ensures var r := LookStep(p).value;
      && r.progress.client == p.progress.next
      && (forall k :: 0 <= k < |r.clients[r.progress.client].up| ==> !r.clients[r.progress.client].up[k].RegReq?)
      && HandOverStep(r).Some?
  {
    hide PoolReachable;
    FreeIsRegistered(dec, p, p.progress.next, p.progress.task);
  }

  /** Nothing but publishing makes a free client full. */
  lemma FreeStaysFree(dec: Decoding, s: Sys, e: Event)
    requires Next(dec, s, e).Some? && !e.Publish? && !FullClient(s)
    ensures !FullClient(Next(dec, s, e).value)
  {
    hide CountMaps.Merge, CountMaps.AddIps, SparseMaps.Densify, SparseMaps.SparseOf, Receiver, SenderAlive;
  }

  /** And stays enabled whatever happens until it is done: decode never blocks on a client it found. */
  lemma {:induction false} HandOverStaysEnabled(dec: Decoding, p: Pool, es: seq<PoolEvent>)
    requires p.progress.Handing? && p.progress.client < |p.clients| && !FullClient(p.clients[p.progress.client])
    requires PoolRun(dec, p, es).Some? && HandOver !in es
    ensures PoolRun(dec, p, es).value.progress == p.progress
    ensures HandOverStep(PoolRun(dec, p, es).value).Some?
    decreases |es|
  {
    hide Next, FullClient;
    FreeIffItTakesTasks(p.clients[p.progress.client], p.progress.task);
    if es != [] {
      var r := PoolNext(dec, p, es[0]).value;
      assert es[0] != HandOver;
      if es[0].At? && es[0].client == p.progress.client {
        FreeStaysFree(dec, p.clients[p.progress.client], es[0].event);
      }
      HandOverStaysEnabled(dec, r, es[1..]);
    }
  }

  /** The accept loop ends with at most 33 clients. */
  lemma {:induction false} AtMost33Clients(dec: Decoding, p: Pool, es: seq<PoolEvent>)
    requires |p.clients| <= 33 && PoolRun(dec, p, es).Some?
    ensures |PoolRun(dec, p, es).value.clients| <= 33
    decreases |es|
  {
    hide Next;
    if es != [] {
      AtMost33Clients(dec, PoolNext(dec, p, es[0]).value, es[1..]);
    }
  }
}

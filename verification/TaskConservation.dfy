// No run loses, duplicates or miscounts a task, whatever the interleaving of
// workers, wires, memory requests and fetches, and even after a receive loop has
// ended. Once drained, every run over the same tasks gives the same count map.
module TaskConservation {
  import opened Basics
  import opened Bags
  import opened CountMaps
  import opened SparseMaps
  import opened ClientProtocol

  ghost function MsgTasks(m: Msg): multiset<Task> {
    if m.DataReq? then multiset{m.task} else multiset{}
  }

  ghost function MsgCounts(m: Msg): multiset<Loc> {
    if m.DataRsp? then Meaning(Densify(m.counts)) else multiset{}
  }

  ghost function WorkerTasks(w: Worker): multiset<Task> {
    if w.Idle? then multiset{} else multiset{w.task}
  }

  /** What a task contributes to the final counts. */
  ghost function TaskBag(dec: Decoding): Task -> multiset<Loc> {
    task => Locs(dec(task))
  }

  /** The tasks that are somewhere between publication and completion. */
  ghost function Unfinished(s: Sys): multiset<Task> {
    multiset(s.taskQ) + Sum(s.down, MsgTasks) + multiset(s.workQ) + Sum(s.workers, WorkerTasks)
  }

  /** Counts that have left a worker: fetched, resident, or on the wire. */
  ghost function Reported(s: Sys): multiset<Loc> {
    Meaning(s.got) + Meaning(s.rst) + Sum(s.up, MsgCounts)
  }

  /** Places holding task t, minus its publications: zero when t is in exactly one place each time. */
  ghost function TaskBalance(s: Sys, t: Task): int {
    (multiset(s.taskQ)[t] + Sum(s.down, MsgTasks)[t] + multiset(s.workQ)[t] + Sum(s.workers, WorkerTasks)[t]
     + s.done[t]) as int - multiset(s.published)[t] as int
  }

  /** Reported executions of l, minus those of the finished tasks. */
  ghost function CountBalance(dec: Decoding, s: Sys, l: Loc): int {
    (Meaning(s.got)[l] + Meaning(s.rst)[l] + Sum(s.up, MsgCounts)[l]) as int - Weight(s.done, TaskBag(dec))[l] as int
  }

  /** What each wire may carry; neither receive loop can meet an unknown message. */
  ghost predicate WiresTyped(s: Sys) {
    && !s.serverDown
    && (forall i :: 0 <= i < |s.down| ==> s.down[i].RegRsp? || s.down[i].DataReq? || s.down[i].MemRsp?)
    && (forall i :: 0 <= i < |s.up| ==> s.up[i].RegReq? || s.up[i].MemReq? || s.up[i].DataRsp?)
  }

  /** Every count map in the system has page-aligned keys and no empty page, and all indices in range. */
  ghost predicate MapsWellFormed(s: Sys) {
    && (forall i :: 0 <= i < |s.up| && s.up[i].DataRsp? ==>
          WellFormed(s.up[i].counts) && Canonical(Densify(s.up[i].counts)) && Aligned(Densify(s.up[i].counts)))
    && Canonical(s.rst) && Aligned(s.rst) && Canonical(s.got) && Aligned(s.got)
  }

  /** Steps of the server side, as opposed to the client's. */
  predicate ServerSide(e: Event) {
    e.Publish? || e.SendTask? || e.ServerReg? || e.ServerMem? || e.ServerData? || e.ServerOther? || e.Fetch?
  }

  // ---- Every step keeps the balance of tasks --------------------------------------

  lemma SendTaskTasks(s: Sys, t: Task)
    requires SendTaskStep(s).Some?
    ensures TaskBalance(SendTaskStep(s).value, t) == TaskBalance(s, t)
  {
    hide Sum;
    PopAt(s.taskQ, t);
    SumSnocAt(s.down, DataReq(s.taskQ[0]), MsgTasks, t);
  }

  lemma ClientDataTasks(s: Sys, t: Task)
    requires ClientDataStep(s).Some?
    ensures TaskBalance(ClientDataStep(s).value, t) == TaskBalance(s, t)
  {
    hide Sum;
    SumPopAt(s.down, MsgTasks, t);
  }

  lemma ClientMemTasks(s: Sys, t: Task)
    requires ClientMemStep(s).Some?
    ensures TaskBalance(ClientMemStep(s).value, t) == TaskBalance(s, t)
  {
    hide Sum;
    var r := ClientMemStep(s).value;
    SumPopAt(s.down, MsgTasks, t);
    if s.down[0].addr in s.pending {
      var w := Receiver(s.workers, s.pending[s.down[0].addr]);
      if w < |s.workers| {
        SumUpdateAt(s.workers, w, s.workers[w].(reply := Some(s.down[0].data)), WorkerTasks, t);
        assert Sum(r.workers, WorkerTasks)[t] == Sum(s.workers, WorkerTasks)[t];
      }
    }
  }

  lemma TakeTasks(s: Sys, w: nat, t: Task)
    requires TakeStep(s, w).Some?
    ensures TaskBalance(TakeStep(s, w).value, t) == TaskBalance(s, t)
  {
    hide Sum;
    PopAt(s.workQ, t);
    SumUpdateAt(s.workers, w, Busy(s.workQ[0]), WorkerTasks, t);
  }

  lemma FinishTasks(dec: Decoding, s: Sys, w: nat, t: Task)
    requires FinishStep(dec, s, w).Some?
    ensures TaskBalance(FinishStep(dec, s, w).value, t) == TaskBalance(s, t)
  {
    hide Sum;
    SumUpdateAt(s.workers, w, Idle, WorkerTasks, t);
  }

  lemma TaskStepOfServer(dec: Decoding, s: Sys, e: Event, t: Task)
    requires Next(dec, s, e).Some? && WiresTyped(s) && ServerSide(e)
    ensures TaskBalance(Next(dec, s, e).value, t) == TaskBalance(s, t)
  {
    hide Sum;
    match e
    case Publish(_) =>
    case SendTask => SendTaskTasks(s, t);
    case ServerReg => SumSnocAt(s.down, RegRsp, MsgTasks, t);
    case ServerMem(memory) => SumSnocAt(s.down, MemRsp(s.up[0].addr, memory), MsgTasks, t);
    case ServerData =>
    case ServerOther =>
    case Fetch =>
    case _ =>
  }

  lemma TaskStepOfClient(dec: Decoding, s: Sys, e: Event, t: Task)
    requires Next(dec, s, e).Some? && WiresTyped(s) && !ServerSide(e)
    ensures TaskBalance(Next(dec, s, e).value, t) == TaskBalance(s, t)
  {
    hide Sum;
    match e
    case ClientReg => SumPopAt(s.down, MsgTasks, t);
    case ClientData => ClientDataTasks(s, t);
    case ClientMem => ClientMemTasks(s, t);
    case ClientOther =>
    case Take(w) => TakeTasks(s, w, t);
    case AskMem(w, addr, len) =>
      SumUpdateAt(s.workers, w, Waiting(s.workers[w].task, addr, len, |s.asked|, None), WorkerTasks, t);
    case Register =>
    case SendMemReq =>
    case Wake(w) => SumUpdateAt(s.workers, w, Busy(s.workers[w].task), WorkerTasks, t);
    case Finish(w) => FinishTasks(dec, s, w, t);
    case _ =>
  }

  lemma TaskStep(dec: Decoding, s: Sys, e: Event, t: Task)
    requires Next(dec, s, e).Some? && WiresTyped(s)
    ensures TaskBalance(Next(dec, s, e).value, t) == TaskBalance(s, t)
  {
    hide Sum;
    if ServerSide(e) {
      TaskStepOfServer(dec, s, e, t);
    } else {
      TaskStepOfClient(dec, s, e, t);
    }
  }

  // ---- Every step keeps the balance of counts -------------------------------------

  lemma FinishCounts(dec: Decoding, s: Sys, w: nat, l: Loc)
    requires FinishStep(dec, s, w).Some?
    ensures CountBalance(dec, FinishStep(dec, s, w).value, l) == CountBalance(dec, s, l)
  {
    hide Meaning, Weight, Sum;
    var task := s.workers[w].task;
    SumSnocAt(s.up, DataRsp(SparseOf(AddIps(map[], dec(task)))), MsgCounts, l);
    AddIpsMeaning(map[], dec(task));
    MeaningOfEmpty();
    SparseOfLosesNothing(AddIps(map[], dec(task)));
    WeightAdd(s.done, task, TaskBag(dec));
  }

  lemma ServerDataCounts(dec: Decoding, s: Sys, l: Loc)
    requires ServerDataStep(s).Some?
    ensures CountBalance(dec, ServerDataStep(s).value, l) == CountBalance(dec, s, l)
  {
    hide Meaning, Weight, Sum;
    var r := ServerDataStep(s).value;
    var d := Densify(s.up[0].counts);
    SumPopAt(s.up, MsgCounts, l);
    MergeMeaning(s.rst, d);
    assert Meaning(r.rst)[l] == Meaning(s.rst)[l] + Meaning(d)[l];
    assert Sum(s.up, MsgCounts)[l] == Meaning(d)[l] + Sum(r.up, MsgCounts)[l];
  }

  lemma FetchCounts(dec: Decoding, s: Sys, l: Loc)
    ensures CountBalance(dec, FetchStep(s).value, l) == CountBalance(dec, s, l)
  {
    hide Meaning, Weight, Sum;
    MergeMeaning(s.got, s.rst);
    MeaningOfEmpty();
    assert Meaning(Merge(s.got, s.rst))[l] == Meaning(s.got)[l] + Meaning(s.rst)[l];
  }

  lemma ServerRegCounts(dec: Decoding, s: Sys, l: Loc)
    requires ServerRegStep(s).Some?
    ensures CountBalance(dec, ServerRegStep(s).value, l) == CountBalance(dec, s, l)
  {
    hide Meaning, Weight, Sum;
    SumPopAt(s.up, MsgCounts, l);
  }

  lemma ServerMemCounts(dec: Decoding, s: Sys, memory: Bytes, l: Loc)
    requires ServerMemStep(s, memory).Some?
    ensures CountBalance(dec, ServerMemStep(s, memory).value, l) == CountBalance(dec, s, l)
  {
    hide Meaning, Weight, Sum;
    SumPopAt(s.up, MsgCounts, l);
  }

  lemma SendMemReqCounts(dec: Decoding, s: Sys, l: Loc)
    requires SendMemReqStep(s).Some?
    ensures CountBalance(dec, SendMemReqStep(s).value, l) == CountBalance(dec, s, l)
  {
    hide Meaning, Weight, Sum;
    SumSnocAt(s.up, MemReq(s.forwarding.value.0, s.forwarding.value.1), MsgCounts, l);
  }

  lemma CountStepOfServer(dec: Decoding, s: Sys, e: Event, l: Loc)
    requires Next(dec, s, e).Some? && WiresTyped(s) && ServerSide(e)
    ensures CountBalance(dec, Next(dec, s, e).value, l) == CountBalance(dec, s, l)
  {
    hide Meaning, Weight, Sum;
    match e
    case Publish(_) =>
    case SendTask =>
    case ServerReg => ServerRegCounts(dec, s, l);
    case ServerMem(memory) => ServerMemCounts(dec, s, memory, l);
    case ServerData => ServerDataCounts(dec, s, l);
    case ServerOther =>
    case Fetch => FetchCounts(dec, s, l);
    case _ =>
  }

  lemma CountStepOfClient(dec: Decoding, s: Sys, e: Event, l: Loc)
    requires Next(dec, s, e).Some? && WiresTyped(s) && !ServerSide(e)
    ensures CountBalance(dec, Next(dec, s, e).value, l) == CountBalance(dec, s, l)
  {
    hide Meaning, Weight, Sum, Merge, Densify, SparseOf, AddIps, Receiver, SenderAlive;
    match e
    case ClientReg =>
    case ClientData =>
    case ClientMem =>
    case ClientOther =>
    case Take(_) =>
    case AskMem(_, _, _) =>
    case Register =>
    case SendMemReq => SendMemReqCounts(dec, s, l);
    case Wake(_) =>
    case Finish(w) => FinishCounts(dec, s, w, l);
    case _ =>
  }

  lemma CountStep(dec: Decoding, s: Sys, e: Event, l: Loc)
    requires Next(dec, s, e).Some? && WiresTyped(s)
    ensures CountBalance(dec, Next(dec, s, e).value, l) == CountBalance(dec, s, l)
  {
    hide Meaning, Weight, Sum;
    if ServerSide(e) {
      CountStepOfServer(dec, s, e, l);
    } else {
      CountStepOfClient(dec, s, e, l);
    }
  }

  // ---- Every step keeps wires and maps well formed ---------------------------------

  lemma WiresStepOfServer(dec: Decoding, s: Sys, e: Event)
    requires Next(dec, s, e).Some? && WiresTyped(s) && ServerSide(e)
    ensures WiresTyped(Next(dec, s, e).value)
  {
  }

  lemma WiresStep(dec: Decoding, s: Sys, e: Event)
    requires Next(dec, s, e).Some? && WiresTyped(s)
    ensures WiresTyped(Next(dec, s, e).value)
  {
    hide Densify, SparseOf, AddIps, Merge, Receiver, SenderAlive;
    if ServerSide(e) {
      WiresStepOfServer(dec, s, e);
    }
  }

  lemma FinishMaps(dec: Decoding, s: Sys, w: nat)
    requires FinishStep(dec, s, w).Some? && MapsWellFormed(s)
    ensures MapsWellFormed(FinishStep(dec, s, w).value)
  {
    var counts := AddIps(map[], dec(s.workers[w].task));
    AddIpsMeaning(map[], dec(s.workers[w].task));
    SparseOfLosesNothing(counts);
  }

  lemma ServerDataMaps(s: Sys)
    requires ServerDataStep(s).Some? && MapsWellFormed(s)
    ensures MapsWellFormed(ServerDataStep(s).value)
  {
    var r := ServerDataStep(s).value;
    MergeKeeps(s.rst, Densify(s.up[0].counts));
    assert forall i :: 0 <= i < |r.up| ==> r.up[i] == s.up[i + 1];
  }

  lemma MapsStepOfServer(dec: Decoding, s: Sys, e: Event)
    requires Next(dec, s, e).Some? && MapsWellFormed(s) && ServerSide(e)
    ensures MapsWellFormed(Next(dec, s, e).value)
  {
    match e
    case ServerData => ServerDataMaps(s);
    case Fetch => MergeKeeps(s.got, s.rst);
    case _ =>
  }

  lemma MapsStepOfClient(dec: Decoding, s: Sys, e: Event)
    requires Next(dec, s, e).Some? && MapsWellFormed(s) && !ServerSide(e)
    ensures MapsWellFormed(Next(dec, s, e).value)
  {
    hide Canonical, Aligned, WellFormed, Densify, SparseOf, AddIps, Receiver, SenderAlive;
    match e
    case Finish(w) => FinishMaps(dec, s, w);
    case _ =>
  }

  lemma MapsStep(dec: Decoding, s: Sys, e: Event)
    requires Next(dec, s, e).Some? && MapsWellFormed(s)
    ensures MapsWellFormed(Next(dec, s, e).value)
  {
    if ServerSide(e) {
      MapsStepOfServer(dec, s, e);
    } else {
      MapsStepOfClient(dec, s, e);
    }
  }

  // ---- Runs ------------------------------------------------------------------------

  ghost predicate Inv(dec: Decoding, s: Sys) {
    && (forall t :: TaskBalance(s, t) == 0)
    && (forall l :: CountBalance(dec, s, l) == 0)
    && WiresTyped(s) && MapsWellFormed(s)
  }

  lemma {:induction false} AllIdle(ws: seq<Worker>)
    requires forall i :: 0 <= i < |ws| ==> ws[i].Idle?
    ensures Sum(ws, WorkerTasks) == multiset{}
  {
    if ws != [] {
      AllIdle(ws[1..]);
    }
  }

  lemma InitInv(dec: Decoding, n: nat)
    ensures Inv(dec, Init(n))
  {
    var s := Init(n);
    AllIdle(s.workers);
    SumSnoc([], RegReq, MsgCounts);
    assert s.up == [] + [RegReq];
  }

  lemma {:induction false} RunKeeps(dec: Decoding, s: Sys, es: seq<Event>)
    requires Inv(dec, s) && Run(dec, s, es).Some?
    ensures Inv(dec, Run(dec, s, es).value)
    decreases |es|
  {
    if es != [] {
      var r := Next(dec, s, es[0]).value;
      WiresStep(dec, s, es[0]);
      MapsStep(dec, s, es[0]);
      forall t ensures TaskBalance(r, t) == 0 {
        TaskStep(dec, s, es[0], t);
      }
      forall l ensures CountBalance(dec, r, l) == 0 {
        CountStep(dec, s, es[0], l);
      }
      RunKeeps(dec, r, es[1..]);
    }
  }

  lemma Equations(dec: Decoding, s: Sys)
    requires Inv(dec, s)
    ensures multiset(s.published) == Unfinished(s) + s.done
    ensures Reported(s) == Weight(s.done, TaskBag(dec))
  {
    forall t ensures multiset(s.published)[t] == (Unfinished(s) + s.done)[t] {
      assert TaskBalance(s, t) == 0;
    }
    forall l ensures Reported(s)[l] == Weight(s.done, TaskBag(dec))[l] {
      assert CountBalance(dec, s, l) == 0;
    }
  }

  lemma ReachableInv(dec: Decoding, n: nat, s: Sys)
    requires Reachable(dec, n, s)
    ensures Inv(dec, s)
  {
    var es :| Run(dec, Init(n), es) == Some(s);
    InitInv(dec, n);
    RunKeeps(dec, Init(n), es);
  }

  /**
   * Conservation in every reachable state. Each published task is in exactly one
   * place, and fetched, resident and in-flight counts plus the decoding of every
   * unfinished task are the decoding of all published tasks.
   */
  lemma Conservation(dec: Decoding, n: nat, s: Sys)
    requires Reachable(dec, n, s)
    ensures multiset(s.published) == Unfinished(s) + s.done
    ensures Reported(s) + Weight(Unfinished(s), TaskBag(dec)) == Weight(multiset(s.published), TaskBag(dec))
    ensures WiresTyped(s)
  {
    ReachableInv(dec, n, s);
    Equations(dec, s);
    WeightUnion(Unfinished(s), s.done, TaskBag(dec));
  }

  /** Nothing is left between the callers of publish_task and rst_data. */
  ghost predicate Drained(s: Sys) {
    && s.taskQ == [] && s.workQ == []
    && (forall i :: 0 <= i < |s.down| ==> !s.down[i].DataReq?)
    && (forall i :: 0 <= i < |s.workers| ==> s.workers[i].Idle?)
    && (forall i :: 0 <= i < |s.up| ==> !s.up[i].DataRsp?)
  }

  lemma {:induction false} NoTasks(q: seq<Msg>)
    requires forall i :: 0 <= i < |q| ==> !q[i].DataReq?
    ensures Sum(q, MsgTasks) == multiset{}
  {
    if q != [] {
      NoTasks(q[1..]);
    }
  }

  lemma {:induction false} NoCounts(q: seq<Msg>)
    requires forall i :: 0 <= i < |q| ==> !q[i].DataRsp?
    ensures Sum(q, MsgCounts) == multiset{}
  {
    if q != [] {
      NoCounts(q[1..]);
    }
  }

  lemma DrainedState(dec: Decoding, s: Sys)
    requires Inv(dec, s) && Drained(s)
    ensures Meaning(Merge(s.got, s.rst)) == Weight(multiset(s.published), TaskBag(dec))
    ensures Canonical(Merge(s.got, s.rst))
  {
    Equations(dec, s);
    NoTasks(s.down);
    NoCounts(s.up);
    AllIdle(s.workers);
    MergeMeaning(s.got, s.rst);
    MergeKeeps(s.got, s.rst);
    assert Unfinished(s) == multiset{};
    assert multiset(s.published) == s.done;
  }

  /** A drained run has reported exactly the histogram of all its tasks. */
  lemma DrainedTotal(dec: Decoding, n: nat, s: Sys)
    requires Reachable(dec, n, s) && Drained(s)
    ensures Meaning(Merge(s.got, s.rst)) == Weight(multiset(s.published), TaskBag(dec))
    ensures Canonical(Merge(s.got, s.rst))
  {
    ReachableInv(dec, n, s);
    DrainedState(dec, s);
  }

  /**
   * Confluence: two drained runs over the same tasks, in any order of publication,
   * with any number of workers, any interleaving and any fetch times, agree on the map.
   */
  lemma Confluence(dec: Decoding, n1: nat, s1: Sys, n2: nat, s2: Sys)
    requires Reachable(dec, n1, s1) && Drained(s1)
    requires Reachable(dec, n2, s2) && Drained(s2)
    requires multiset(s1.published) == multiset(s2.published)
    ensures Merge(s1.got, s1.rst) == Merge(s2.got, s2.rst)
  {
    DrainedTotal(dec, n1, s1);
    DrainedTotal(dec, n2, s2);
    CanonicalUnique(Merge(s1.got, s1.rst), Merge(s2.got, s2.rst));
  }
}

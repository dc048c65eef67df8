// Order and registration in every run of the client protocol: tasks reach the workers
// in the order they were published, a client is active exactly when its registration
// has been handled, and every reply fills the server's buffer.
module ClientOrder {
  import opened Basics
  import opened ClientProtocol
  import CountMaps
  import SparseMaps

  /** The tasks on a wire, in order. */
  ghost function DataTasks(q: seq<Msg>): seq<Task> {
    if q == [] then [] else TaskOf(q[0]) + DataTasks(q[1..])
  }

  ghost function TaskOf(m: Msg): seq<Task> {
    if m.DataReq? then [m.task] else []
  }

  lemma {:induction false} DataTasksSnoc(q: seq<Msg>, m: Msg)
    ensures DataTasks(q + [m]) == DataTasks(q) + TaskOf(m)
  {
    hide TaskOf;
    if q == [] {
      assert [m][1..] == [] && TaskOf(m) + [] == [] + TaskOf(m);
    } else {
      assert (q + [m])[1..] == q[1..] + [m];
      DataTasksSnoc(q[1..], m);
      assert TaskOf(q[0]) + (DataTasks(q[1..]) + TaskOf(m)) == (TaskOf(q[0]) + DataTasks(q[1..])) + TaskOf(m);
    }
  }

  /** The published tasks that no worker has taken yet, the next one first. */
  ghost function Untaken(s: Sys): seq<Task> {
    s.workQ + DataTasks(s.down) + s.taskQ
  }

  /** They are the last ones published, in the order of publication. */
  ghost predicate InOrder(s: Sys) {
    |Untaken(s)| <= |s.published| && s.published[|s.published| - |Untaken(s)|..] == Untaken(s)
  }

  /** The registration is the first message up until it is handled, and there is only one. */
  ghost predicate Registration(s: Sys) {
    if s.active then forall i :: 0 <= i < |s.up| ==> !s.up[i].RegReq?
    else s.up != [] && s.up[0].RegReq? && forall i :: 0 < i < |s.up| ==> !s.up[i].RegReq?
  }

  ghost predicate FullReplies(s: Sys) {
    && (forall a, data :: (a, data) in s.served ==> |data| == 8192)
    && (forall i :: 0 <= i < |s.down| && s.down[i].MemRsp? ==> (s.down[i].addr, s.down[i].data) in s.served)
  }

  // ---- Steps -------------------------------------------------------------------------

  /** Sending a task moves it from the queue to the wire. */
  lemma SendKeepsOrder(s: Sys)
    requires SendTaskStep(s).Some?
    ensures Untaken(SendTaskStep(s).value) == Untaken(s)
  {
    hide DataTasks;
    DataTasksSnoc(s.down, DataReq(s.taskQ[0]));
    assert s.taskQ == [s.taskQ[0]] + s.taskQ[1..];
  }

  /** Answers of the server are not tasks. */
  lemma AnswersKeepOrder(s: Sys, memory: Bytes)
    ensures ServerRegStep(s).Some? ==> Untaken(ServerRegStep(s).value) == Untaken(s)
    ensures ServerMemStep(s, memory).Some? ==> Untaken(ServerMemStep(s, memory).value) == Untaken(s)
  {
    hide DataTasks;
    DataTasksSnoc(s.down, RegRsp);
    if ServerMemStep(s, memory).Some? {
      DataTasksSnoc(s.down, MemRsp(s.up[0].addr, memory));
    }
  }

  /** Receiving a task moves it from the wire to the work queue. */
  lemma ReceiveKeepsOrder(s: Sys)
    requires ClientDataStep(s).Some?
    ensures Untaken(ClientDataStep(s).value) == Untaken(s)
  {
    var t, rest := s.down[0].task, DataTasks(s.down[1..]);
    assert (s.workQ + [t]) + rest == s.workQ + ([t] + rest);
  }

  /** Receiving anything else only shortens the wire. */
  lemma OthersKeepOrder(s: Sys, r: Sys)
    requires s.down != [] && !s.down[0].DataReq?
    requires r.down == s.down[1..] && r.workQ == s.workQ && r.taskQ == s.taskQ
    ensures Untaken(r) == Untaken(s)
  {
    assert [] + DataTasks(s.down[1..]) == DataTasks(s.down[1..]);
  }

  lemma ClientReceives(dec: Decoding, s: Sys, e: Event)
    requires Next(dec, s, e).Some? && (e.ClientReg? || e.ClientMem? || e.ClientOther?)
    ensures s.down != [] && !s.down[0].DataReq?
    ensures var r := Next(dec, s, e).value;
      r.down == s.down[1..] && r.workQ == s.workQ && r.taskQ == s.taskQ && r.published == s.published
  {
    hide Receiver;
  }

  /** The remaining steps do not touch tasks before they are taken. */
  lemma OtherSteps(dec: Decoding, s: Sys, e: Event)
    requires Next(dec, s, e).Some?
    requires e.ServerData? || e.ServerOther? || e.Fetch?
      || e.AskMem? || e.Register? || e.SendMemReq? || e.Wake? || e.Finish?
    ensures var r := Next(dec, s, e).value;
      r.down == s.down && r.workQ == s.workQ && r.taskQ == s.taskQ && r.published == s.published
  {
    hide CountMaps.Merge, CountMaps.AddIps, SparseMaps.Densify, SparseMaps.SparseOf, SenderAlive;
  }

  /** Only publishing and taking change what is untaken. */
  lemma UntakenStays(dec: Decoding, s: Sys, e: Event)
    requires Next(dec, s, e).Some? && !e.Publish? && !e.Take?
    ensures Untaken(Next(dec, s, e).value) == Untaken(s)
    ensures Next(dec, s, e).value.published == s.published
  {
    if e.SendTask? {
      SendKeepsOrder(s);
    } else if e.ServerReg? {
      AnswersKeepOrder(s, []);
    } else if e.ServerMem? {
      AnswersKeepOrder(s, e.memory);
    } else if e.ClientData? {
      ReceiveKeepsOrder(s);
    } else if e.ClientReg? || e.ClientMem? || e.ClientOther? {
      hide Next, Untaken;
      ClientReceives(dec, s, e);
      OthersKeepOrder(s, Next(dec, s, e).value);
    } else {
      hide Next, DataTasks;
      OtherSteps(dec, s, e);
    }
  }

  lemma PublishKeepsOrder(s: Sys, task: Task)
    requires InOrder(s) && PublishStep(s, task).Some?
    ensures InOrder(PublishStep(s, task).value)
  {
    hide DataTasks;
    var r, k := PublishStep(s, task).value, |s.published| - |Untaken(s)|;
    assert Untaken(r) == Untaken(s) + [task];
    assert r.published[k..] == s.published[k..] + [task];
  }

  lemma TakeKeepsOrder(s: Sys, w: nat)
    requires InOrder(s) && TakeStep(s, w).Some?
    ensures InOrder(TakeStep(s, w).value) && Untaken(TakeStep(s, w).value) == Untaken(s)[1..]
  {
    hide DataTasks;
    assert Untaken(TakeStep(s, w).value) == Untaken(s)[1..];
  }

  lemma OrderStep(dec: Decoding, s: Sys, e: Event)
    requires InOrder(s) && Next(dec, s, e).Some?
    ensures InOrder(Next(dec, s, e).value)
  {
    hide PublishStep, TakeStep, Untaken;
    if e.Publish? {
      PublishKeepsOrder(s, e.task);
    } else if e.Take? {
      TakeKeepsOrder(s, e.w);
    } else {
      UntakenStays(dec, s, e);
    }
  }

  /** The server handles the registration, or it is not the first message. */
  lemma ServerKeepsRegistration(dec: Decoding, s: Sys, e: Event)
    requires Registration(s) && Next(dec, s, e).Some?
    requires e.ServerReg? || e.ServerMem? || e.ServerData? || e.ServerOther?
    ensures Registration(Next(dec, s, e).value)
  {
    hide CountMaps.Merge, SparseMaps.Densify;
  }

  /** The client sends no second one. */
  lemma ClientKeepsRegistration(dec: Decoding, s: Sys, e: Event)
    requires Registration(s) && Next(dec, s, e).Some? && (e.SendMemReq? || e.Finish?)
    ensures Registration(Next(dec, s, e).value)
  {
    hide CountMaps.AddIps, SparseMaps.SparseOf;
  }

  lemma OthersKeepRegistration(dec: Decoding, s: Sys, e: Event)
    requires Next(dec, s, e).Some?
    requires !e.ServerReg? && !e.ServerMem? && !e.ServerData? && !e.ServerOther? && !e.SendMemReq? && !e.Finish?
    ensures Next(dec, s, e).value.up == s.up && Next(dec, s, e).value.active == s.active
  {
    hide CountMaps.Merge, Receiver, SenderAlive;
  }

  lemma RegistrationStep(dec: Decoding, s: Sys, e: Event)
    requires Registration(s) && Next(dec, s, e).Some?
    ensures Registration(Next(dec, s, e).value)
  {
    hide Next;
    if e.ServerReg? || e.ServerMem? || e.ServerData? || e.ServerOther? {
      ServerKeepsRegistration(dec, s, e);
    } else if e.SendMemReq? || e.Finish? {
      ClientKeepsRegistration(dec, s, e);
    } else {
      OthersKeepRegistration(dec, s, e);
    }
  }

  lemma FullRepliesStep(dec: Decoding, s: Sys, e: Event)
    requires FullReplies(s) && Next(dec, s, e).Some?
    ensures FullReplies(Next(dec, s, e).value)
  {
    hide CountMaps.Merge, CountMaps.AddIps, SparseMaps.Densify, SparseMaps.SparseOf, Receiver, SenderAlive;
  }

  lemma {:induction false} RunOrder(dec: Decoding, s: Sys, es: seq<Event>)
    requires InOrder(s) && Registration(s) && FullReplies(s) && Run(dec, s, es).Some?
    ensures var r := Run(dec, s, es).value; InOrder(r) && Registration(r) && FullReplies(r)
    decreases |es|
  {
    hide Next, InOrder, Registration, FullReplies;
    if es != [] {
      OrderStep(dec, s, es[0]);
      RegistrationStep(dec, s, es[0]);
      FullRepliesStep(dec, s, es[0]);
      RunOrder(dec, Next(dec, s, es[0]).value, es[1..]);
    }
  }

  lemma ReachableOrder(dec: Decoding, n: nat, s: Sys)
    requires Reachable(dec, n, s)
    ensures InOrder(s) && Registration(s) && FullReplies(s)
  {
    var es :| Run(dec, Init(n), es) == Some(s);
    assert InOrder(Init(n)) && Registration(Init(n)) && FullReplies(Init(n));
    hide InOrder, Registration, FullReplies;
    RunOrder(dec, Init(n), es);
  }

  // ---- What holds in every run -----------------------------------------------------------

  /** Workers take tasks in the order they were published: the next one taken is the oldest not taken. */
  lemma TasksAreTakenInOrder(dec: Decoding, n: nat, s: Sys, w: nat)
    requires Reachable(dec, n, s) && TakeStep(s, w).Some?
    ensures 0 < |Untaken(s)| <= |s.published|
    ensures Untaken(s) == s.published[|s.published| - |Untaken(s)|..]
    ensures TakeStep(s, w).value.workers == s.workers[w := Busy(s.published[|s.published| - |Untaken(s)|])]
    ensures Untaken(TakeStep(s, w).value) == Untaken(s)[1..]
  {
    hide DataTasks;
    ReachableOrder(dec, n, s);
    TakeKeepsOrder(s, w);
    assert Untaken(s)[0] == s.workQ[0];
  }

  /** A client is active exactly when no registration of it is left to handle. */
  lemma ActiveIffRegistered(dec: Decoding, n: nat, s: Sys)
    requires Reachable(dec, n, s)
    ensures s.active <==> forall i :: 0 <= i < |s.up| ==> !s.up[i].RegReq?
  {
    ReachableOrder(dec, n, s);
  }

  /** Every reply is a whole buffer, also when the server's own read failed. */
  lemma RepliesAreWholeBuffers(dec: Decoding, n: nat, s: Sys, i: nat)
    requires Reachable(dec, n, s) && i < |s.down| && s.down[i].MemRsp?
    ensures |s.down[i].data| == 8192
  {
    ReachableOrder(dec, n, s);
    assert (s.down[i].addr, s.down[i].data) in s.served;
  }
}

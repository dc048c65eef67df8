// Exactly when the client's receive loop is safe: it is safe in every run if and
// only if no address may be asked for by two different workers. With such an
// address there is a run in which the second reply meets a dropped channel and
// the loop ends.
module MemSharing {
  import opened Basics
  import opened ClientProtocol
  import opened MemExactlyOnce
  import CountMaps
  import SparseMaps

  /** Which worker may ask for which address. */
  type Policy = (nat, nat) -> bool

  ghost predicate Within(may: Policy, es: seq<Event>) {
    forall i :: 0 <= i < |es| && es[i].AskMem? ==> may(es[i].w, es[i].addr)
  }

  /** s is reached by a run in which workers keep to the policy. */
  ghost predicate ReachableWithin(dec: Decoding, n: nat, may: Policy, s: Sys) {
    exists es :: Within(may, es) && Run(dec, Init(n), es) == Some(s)
  }

  ghost predicate Disjoint(n: nat, may: Policy) {
    forall i: nat, j: nat, a: nat :: i < j < n && may(i, a) ==> !may(j, a)
  }

  // ---- Disjoint policies are safe ---------------------------------------------------

  /** There are n workers, and each waits for something it may ask for. */
  ghost predicate Keeps(n: nat, may: Policy, s: Sys) {
    && |s.workers| == n
    && forall i :: 0 <= i < n && s.workers[i].Waiting? ==> may(i, s.workers[i].addr)
  }

  lemma StepKeepsPolicy(dec: Decoding, n: nat, may: Policy, s: Sys, e: Event)
    requires Keeps(n, may, s) && Next(dec, s, e).Some?
    requires e.AskMem? ==> may(e.w, e.addr)
    ensures Keeps(n, may, Next(dec, s, e).value)
  {
    hide CountMaps.Merge, CountMaps.AddIps, SparseMaps.Densify, SparseMaps.SparseOf, SenderAlive;
    var r := Next(dec, s, e).value;
    assert |r.workers| == n;
  }

  lemma {:induction false} RunWithin(dec: Decoding, n: nat, may: Policy, s: Sys, es: seq<Event>)
    requires Disjoint(n, may) && Within(may, es) && Keeps(n, may, s) && Exact(s)
    requires Run(dec, s, es).Some?
    ensures Exact(Run(dec, s, es).value)
    decreases |es|
  {
    if es != [] {
      assert es[0].AskMem? ==> may(es[0].w, es[0].addr);
      StepKeepsPolicy(dec, n, may, s, es[0]);
      assert Allowed(s, es[0]);
      StepExact(dec, s, es[0]);
      assert Within(may, es[1..]);
      RunWithin(dec, n, may, Next(dec, s, es[0]).value, es[1..]);
    }
  }

  lemma DisjointIsSafe(dec: Decoding, n: nat, may: Policy, s: Sys)
    requires Disjoint(n, may) && ReachableWithin(dec, n, may, s)
    ensures !s.broken && CanReceive(s)
  {
    var es :| Within(may, es) && Run(dec, Init(n), es) == Some(s);
    InitExact(n);
    RunWithin(dec, n, may, Init(n), es);
    ExactCanReceive(s);
  }

  // ---- A shared address is not --------------------------------------------------------

  lemma Extend(dec: Decoding, n: nat, may: Policy, s: Sys, e: Event) returns (r: Sys)
    requires ReachableWithin(dec, n, may, s) && Next(dec, s, e).Some?
    requires e.AskMem? ==> may(e.w, e.addr)
    ensures ReachableWithin(dec, n, may, r) && r == Next(dec, s, e).value
  {
    var es :| Within(may, es) && Run(dec, Init(n), es) == Some(s);
    RunOneMore(dec, Init(n), es, e);
    assert Within(may, es + [e]);
    r := Next(dec, s, e).value;
  }

  /** Both loops run and no task is anywhere on its way. */
  ghost predicate Quiet(s: Sys) {
    s.taskQ == [] && s.down == [] && s.workQ == [] && s.memQ == [] && s.forwarding.None? && !s.broken && !s.serverDown
  }

  /** A task travels to idle worker w. */
  lemma GiveTask(dec: Decoding, n: nat, may: Policy, s: Sys, w: nat) returns (r: Sys)
    requires ReachableWithin(dec, n, may, s) && Quiet(s) && w < |s.workers| && s.workers[w].Idle?
    ensures ReachableWithin(dec, n, may, r) && Quiet(r)
    ensures r.workers == s.workers[w := Busy([])] && r.up == s.up && r.asked == s.asked
  {
    var s1 := Extend(dec, n, may, s, Publish([]));
    assert s1.taskQ == [[]];
    var s2 := Extend(dec, n, may, s1, SendTask);
    assert s2.down == [DataReq([])] && s2.taskQ == [];
    var s3 := Extend(dec, n, may, s2, ClientData);
    assert s3.workQ == [[]] && s3.down == [];
    r := Extend(dec, n, may, s3, Take(w));
  }

  /** Worker w asks for a: its channel is registered and the request sent. */
  lemma AskAndSend(dec: Decoding, n: nat, may: Policy, s: Sys, w: nat, a: nat) returns (r: Sys)
    requires ReachableWithin(dec, n, may, s) && Quiet(s)
    requires w < |s.workers| && s.workers[w].Busy? && may(w, a)
    ensures ReachableWithin(dec, n, may, r) && Quiet(r)
    ensures r.workers == s.workers[w := Waiting(s.workers[w].task, a, 4096, |s.asked|, None)]
    ensures r.up == s.up + [MemReq(a, 4096)] && |r.asked| == |s.asked| + 1
    ensures a in r.pending && r.pending[a] == |s.asked|
  {
    var s1 := Extend(dec, n, may, s, AskMem(w, a, 4096));
    assert s1.memQ == [Ask(a, 4096, |s.asked|)];
    var s2 := Extend(dec, n, may, s1, Register);
    r := Extend(dec, n, may, s2, SendMemReq);
  }

  /** The server answers the request at the head of its wire. */
  lemma Serve(dec: Decoding, n: nat, may: Policy, s: Sys, a: nat) returns (r: Sys)
    requires ReachableWithin(dec, n, may, s) && Quiet(s) && s.up != [] && s.up[0] == MemReq(a, 4096)
    ensures ReachableWithin(dec, n, may, r) && !r.broken
    ensures r.down == [MemRsp(a, Zeros(REPLY_SIZE))] && r.up == s.up[1..]
    ensures r == s.(down := r.down, up := r.up, served := r.served)
  {
    r := Extend(dec, n, may, s, ServerMem(Zeros(REPLY_SIZE)));
  }

  lemma Registered(dec: Decoding, n: nat, may: Policy, s: Sys) returns (r: Sys)
    requires ReachableWithin(dec, n, may, s) && Quiet(s) && s.up != [] && s.up[0].RegReq?
    ensures ReachableWithin(dec, n, may, r) && Quiet(r)
    ensures r == s.(active := true, up := s.up[1..])
  {
    var s1 := Extend(dec, n, may, s, ServerReg);
    assert s1.down == [RegRsp];
    r := Extend(dec, n, may, s1, ClientReg);
    assert r.down == s.down;
  }

  /** The reply releases worker w, the only receiver on the registered channel. */
  lemma DeliverAndWake(dec: Decoding, n: nat, may: Policy, s: Sys, w: nat, a: nat) returns (r: Sys)
    requires ReachableWithin(dec, n, may, s) && !s.broken && s.down == [MemRsp(a, Zeros(REPLY_SIZE))]
    requires a in s.pending && w < |s.workers| && s.workers[w].Waiting? && s.workers[w].reply.None?
    requires s.workers[w].ch == s.pending[a]
    requires forall k :: 0 <= k < |s.workers| && k != w && s.workers[k].Waiting? ==> s.workers[k].ch != s.pending[a]
    ensures ReachableWithin(dec, n, may, r)
    ensures r == s.(down := [], workers := s.workers[w := Busy(s.workers[w].task)])
  {
    var s1 := Deliver(dec, n, may, s, w, a);
    assert s1.workers[w].reply.Some?;
    r := Extend(dec, n, may, s1, Wake(w));
    assert r.workers == s.workers[w := Busy(s.workers[w].task)];
  }

  /** A reply for a channel nobody receives on ends the loop. */
  lemma DeliverToNobody(dec: Decoding, n: nat, may: Policy, s: Sys, a: nat) returns (r: Sys)
    requires ReachableWithin(dec, n, may, s) && !s.broken && s.down == [MemRsp(a, Zeros(REPLY_SIZE))]
    requires a in s.pending
    requires forall k :: 0 <= k < |s.workers| && s.workers[k].Waiting? ==> s.workers[k].ch != s.pending[a]
    ensures ReachableWithin(dec, n, may, r) && r.broken
  {
    ReceiverIsFirst(s.workers, s.pending[a]);
    r := Extend(dec, n, may, s, ClientMem);
  }

  /** Workers i and j both wait for a; only j's channel is registered. */
  lemma BothAsked(dec: Decoding, n: nat, may: Policy, i: nat, j: nat, a: nat) returns (s: Sys)
    requires i < j < n && may(i, a) && may(j, a)
    ensures ReachableWithin(dec, n, may, s) && Quiet(s)
    ensures |s.workers| == n && s.workers[j] == Waiting([], a, 4096, 1, None)
    ensures forall k :: 0 <= k < n && k != j && s.workers[k].Waiting? ==> s.workers[k].ch == 0
    ensures a in s.pending && s.pending[a] == 1
    ensures s.up == [RegReq, MemReq(a, 4096), MemReq(a, 4096)]
  {
    assert Run(dec, Init(n), []) == Some(Init(n)) && Within(may, []);
    var s1 := GiveTask(dec, n, may, Init(n), i);
    var s2 := GiveTask(dec, n, may, s1, j);
    var s3 := AskAndSend(dec, n, may, s2, i, a);
    s := AskAndSend(dec, n, may, s3, j, a);
  }

  /** The first reply releases worker j, which drops its channel; the second ends the loop. */
  lemma SharedAddressBreaks(dec: Decoding, n: nat, may: Policy, i: nat, j: nat, a: nat) returns (s: Sys)
    requires i < j < n && may(i, a) && may(j, a)
    ensures ReachableWithin(dec, n, may, s) && s.broken
  {
    var q := BothAsked(dec, n, may, i, j, a);
    var s1 := Registered(dec, n, may, q);
    var s2 := Serve(dec, n, may, s1, a);
    var s3 := DeliverAndWake(dec, n, may, s2, j, a);
    var s4 := Serve(dec, n, may, s3, a);
    s := DeliverToNobody(dec, n, may, s4, a);
  }

  /** Unless worker j has woken in between: then the second reply finds its channel full, and the loop blocks. */
  lemma SharedAddressBlocks(dec: Decoding, n: nat, may: Policy, i: nat, j: nat, a: nat) returns (s: Sys)
    requires i < j < n && may(i, a) && may(j, a)
    ensures ReachableWithin(dec, n, may, s) && !s.broken && s.down != [] && !CanReceive(s)
    ensures WakeStep(s, j).Some? && CanReceive(WakeStep(s, j).value)
  {
    var q := BothAsked(dec, n, may, i, j, a);
    var s1 := Registered(dec, n, may, q);
    var s2 := Serve(dec, n, may, s1, a);
    var s3 := Deliver(dec, n, may, s2, j, a);
    var data := Zeros(REPLY_SIZE);
    s := Extend(dec, n, may, s3, ServerMem(data));
    assert s.down == [MemRsp(a, data)];
    OnlyReceiver(s.workers, s.pending[a], j);
    var r := WakeStep(s, j).value;
    NoReceiver(r.workers, r.pending[a]);
  }

  lemma OnlyReceiver(ws: seq<Worker>, ch: nat, j: nat)
    requires j < |ws| && ws[j].Waiting? && ws[j].ch == ch
    requires forall k :: 0 <= k < |ws| && k != j && ws[k].Waiting? ==> ws[k].ch != ch
    ensures Receiver(ws, ch) == j
  {
    ReceiverIsFirst(ws, ch);
  }

  lemma NoReceiver(ws: seq<Worker>, ch: nat)
    requires forall k :: 0 <= k < |ws| && ws[k].Waiting? ==> ws[k].ch != ch
    ensures Receiver(ws, ch) == |ws|
  {
    ReceiverIsFirst(ws, ch);
  }

  /** The reply reaches worker w's channel. */
  lemma Deliver(dec: Decoding, n: nat, may: Policy, s: Sys, w: nat, a: nat) returns (r: Sys)
    requires ReachableWithin(dec, n, may, s) && !s.broken && s.down == [MemRsp(a, Zeros(REPLY_SIZE))]
    requires a in s.pending && w < |s.workers| && s.workers[w].Waiting? && s.workers[w].reply.None?
    requires s.workers[w].ch == s.pending[a]
    requires forall k :: 0 <= k < |s.workers| && k != w && s.workers[k].Waiting? ==> s.workers[k].ch != s.pending[a]
    ensures ReachableWithin(dec, n, may, r)
    ensures r == s.(down := [], workers := s.workers[w := s.workers[w].(reply := Some(Zeros(REPLY_SIZE)))])
  {
    ReceiverIsFirst(s.workers, s.pending[a]);
    assert Receiver(s.workers, s.pending[a]) == w;
    r := Extend(dec, n, may, s, ClientMem);
    assert r.down == [];
  }

  /** The receive loop survives every run exactly when no address is shared. */
  lemma SafeIffDisjoint(dec: Decoding, n: nat, may: Policy)
    ensures (forall s :: ReachableWithin(dec, n, may, s) ==> !s.broken && CanReceive(s)) <==> Disjoint(n, may)
  {
    if Disjoint(n, may) {
      forall s | ReachableWithin(dec, n, may, s) ensures !s.broken && CanReceive(s) {
        DisjointIsSafe(dec, n, may, s);
      }
    } else {
      var i: nat, j: nat, a: nat :| i < j < n && may(i, a) && may(j, a);
      var s := SharedAddressBreaks(dec, n, may, i, j, a);
    }
  }
}

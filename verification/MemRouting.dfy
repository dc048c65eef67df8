// Replies to memory requests, in every run: what a waiting worker receives was
// sent by the server for the address the worker asked for, and a worker is
// released without data only when a later request for the same address replaced
// its entry in the pending map.
module MemRouting {
  import opened Basics
  import opened ClientProtocol
  import CountMaps
  import SparseMaps

  ghost predicate WorkersRouted(s: Sys) {
    forall i :: 0 <= i < |s.workers| && s.workers[i].Waiting? ==>
      && s.workers[i].ch < |s.asked| && s.asked[s.workers[i].ch] == s.workers[i].addr
      && (s.workers[i].reply.Some? ==> (s.workers[i].addr, s.workers[i].reply.value) in s.served)
  }

  ghost predicate RepliesServed(s: Sys) {
    forall i :: 0 <= i < |s.down| && s.down[i].MemRsp? ==> (s.down[i].addr, s.down[i].data) in s.served
  }

  ghost predicate PendingRouted(s: Sys) {
    forall a :: a in s.pending ==> s.pending[a] < |s.asked| && s.asked[s.pending[a]] == a
  }

  /** Queued requests are in channel order, and newer than everything registered. */
  ghost predicate QueueOrdered(s: Sys) {
    && (forall k :: 0 <= k < |s.memQ| ==> s.memQ[k].ch < |s.asked| && s.asked[s.memQ[k].ch] == s.memQ[k].addr)
    && (forall j, k :: 0 <= j < k < |s.memQ| ==> s.memQ[j].ch < s.memQ[k].ch)
    && (forall a, k :: a in s.pending && 0 <= k < |s.memQ| ==> s.pending[a] < s.memQ[k].ch)
  }

  ghost predicate Queued(s: Sys, ch: nat) {
    exists k :: 0 <= k < |s.memQ| && s.memQ[k].ch == ch
  }

  /** A waiter is queued, registered, or replaced by a later request for its address. */
  ghost predicate WaitersTracked(s: Sys) {
    forall i :: 0 <= i < |s.workers| && s.workers[i].Waiting? ==>
      || Queued(s, s.workers[i].ch)
      || (s.workers[i].addr in s.pending && s.pending[s.workers[i].addr] >= s.workers[i].ch)
  }

  ghost predicate Routed(s: Sys) {
    WorkersRouted(s) && RepliesServed(s) && PendingRouted(s) && QueueOrdered(s) && WaitersTracked(s)
  }

  ghost function WorkerAt(s: Sys, w: nat): Option<Worker> {
    if w < |s.workers| then Some(s.workers[w]) else None
  }

  // ---- Every step keeps the routing ------------------------------------------------

  lemma ServerMemRouted(s: Sys, memory: Bytes)
    requires ServerMemStep(s, memory).Some? && Routed(s)
    ensures Routed(ServerMemStep(s, memory).value)
  {
    var r := ServerMemStep(s, memory).value;
    assert forall k :: Queued(s, k) ==> Queued(r, k);
  }

  /** The receiver of the registered channel asked for the reply's address. */
  lemma DeliverToAsker(s: Sys, w: nat)
    requires s.down != [] && s.down[0].MemRsp? && WorkersRouted(s) && RepliesServed(s) && PendingRouted(s)
    requires s.down[0].addr in s.pending && w == Receiver(s.workers, s.pending[s.down[0].addr])
    requires DeliverTo(s, w, s.down[0].data).Some?
    ensures WorkersRouted(DeliverTo(s, w, s.down[0].data).value)
  {
    ReceiverIsFirst(s.workers, s.pending[s.down[0].addr]);
  }

  lemma DeliverRouted(s: Sys, w: nat)
    requires !s.broken && s.down != [] && s.down[0].MemRsp? && Routed(s)
    requires s.down[0].addr in s.pending && w == Receiver(s.workers, s.pending[s.down[0].addr])
    requires DeliverTo(s, w, s.down[0].data).Some?
    ensures Routed(DeliverTo(s, w, s.down[0].data).value)
  {
    hide WorkersRouted, Receiver, Queued;
    var r := DeliverTo(s, w, s.down[0].data).value;
    DeliverToAsker(s, w);
    forall k ensures Queued(s, k) ==> Queued(r, k) {
      QueuedIn(s, r, k);
    }
    assert RepliesServed(r);
  }

  lemma QueuedIn(s: Sys, r: Sys, ch: nat)
    requires r.memQ == s.memQ
    ensures Queued(s, ch) ==> Queued(r, ch)
  {
  }

  lemma ClientMemRouted(s: Sys)
    requires ClientMemStep(s).Some? && Routed(s)
    ensures Routed(ClientMemStep(s).value)
  {
    if s.down[0].addr in s.pending {
      DeliverRouted(s, Receiver(s.workers, s.pending[s.down[0].addr]));
    } else {
      assert forall k :: Queued(s, k) ==> Queued(ClientMemStep(s).value, k);
    }
  }

  lemma AskMemRouted(s: Sys, w: nat, addr: nat, len: nat)
    requires AskMemStep(s, w, addr, len).Some? && Routed(s)
    ensures Routed(AskMemStep(s, w, addr, len).value)
  {
    var r := AskMemStep(s, w, addr, len).value;
    assert r.memQ[|s.memQ|] == Ask(addr, len, |s.asked|);
    assert Queued(r, |s.asked|);
    forall k | Queued(s, k) ensures Queued(r, k) {
      var j :| 0 <= j < |s.memQ| && s.memQ[j].ch == k;
      assert r.memQ[j].ch == k;
    }
  }

  lemma RegisterRouted(s: Sys)
    requires RegisterStep(s).Some? && Routed(s)
    ensures Routed(RegisterStep(s).value)
  {
    var r, q := RegisterStep(s).value, s.memQ[0];
    assert forall k :: 0 <= k < |r.memQ| ==> r.memQ[k] == s.memQ[k + 1];
    forall i | 0 <= i < |r.workers| && r.workers[i].Waiting?
      ensures || Queued(r, r.workers[i].ch)
              || (r.workers[i].addr in r.pending && r.pending[r.workers[i].addr] >= r.workers[i].ch)
    {
      var x := r.workers[i];
      if Queued(s, x.ch) {
        var k :| 0 <= k < |s.memQ| && s.memQ[k].ch == x.ch;
        if k > 0 {
          assert r.memQ[k - 1].ch == x.ch;
        }
      }
    }
  }

  /** Steps that touch neither the wire down, the requests nor who waits for what. */
  lemma OtherRouted(s: Sys, r: Sys)
    requires Routed(s)
    requires r.memQ == s.memQ && r.pending == s.pending && r.asked == s.asked && r.served == s.served
    requires forall i :: 0 <= i < |r.down| && r.down[i].MemRsp? ==> r.down[i] in s.down
    requires |r.workers| == |s.workers|
    requires forall i :: 0 <= i < |r.workers| && r.workers[i].Waiting? ==> r.workers[i] == s.workers[i]
    ensures Routed(r)
  {
    assert forall k :: Queued(s, k) ==> Queued(r, k);
  }

  lemma StepRouted(dec: Decoding, s: Sys, e: Event)
    requires Next(dec, s, e).Some? && Routed(s)
    ensures Routed(Next(dec, s, e).value)
  {
    hide Routed, CountMaps.Merge, CountMaps.AddIps, SparseMaps.Densify, SparseMaps.SparseOf, SenderAlive;
    match e
    case ServerMem(memory) => ServerMemRouted(s, memory);
    case ClientMem => ClientMemRouted(s);
    case AskMem(w, addr, len) => AskMemRouted(s, w, addr, len);
    case Register => RegisterRouted(s);
    case _ => OtherRouted(s, Next(dec, s, e).value);
  }

  lemma {:induction false} RunRouted(dec: Decoding, s: Sys, es: seq<Event>)
    requires Routed(s) && Run(dec, s, es).Some?
    ensures Routed(Run(dec, s, es).value)
    decreases |es|
  {
    if es != [] {
      StepRouted(dec, s, es[0]);
      RunRouted(dec, Next(dec, s, es[0]).value, es[1..]);
    }
  }

  lemma ReachableRouted(dec: Decoding, n: nat, s: Sys)
    requires Reachable(dec, n, s)
    ensures Routed(s)
  {
    var es :| Run(dec, Init(n), es) == Some(s);
    RunRouted(dec, Init(n), es);
  }

  // ---- What a released worker holds ------------------------------------------------

  /**
   * In every run, with any number of workers asking for anything at any time: a
   * worker that waited for address a is released with bytes the server sent for
   * a, or without data because a later request for a replaced its entry.
   */
  lemma DeliveryIsForItsAddress(dec: Decoding, n: nat, s: Sys, w: nat)
    requires Reachable(dec, n, s) && WakeStep(s, w).Some?
    ensures var x := s.workers[w];
      && (x.reply.Some? ==> (x.addr, x.reply.value) in s.served)
      && (x.reply.None? ==>
            && x.addr in s.pending && x.ch < s.pending[x.addr] < |s.asked|
            && s.asked[s.pending[x.addr]] == x.addr)
  {
    ReachableRouted(dec, n, s);
    QueuedIsAlive(s, s.workers[w].ch);
  }

  /**
   * Once its entry is replaced a waiter can be released at any time, and until it
   * is, no step changes what it will be released with.
   */
  lemma ReplacedWaiterIsFrozen(dec: Decoding, n: nat, s: Sys, w: nat, e: Event)
    requires Reachable(dec, n, s)
    requires w < |s.workers| && s.workers[w].Waiting? && !SenderAlive(s, s.workers[w].ch)
    requires Next(dec, s, e).Some? && e != Wake(w)
    ensures WakeStep(s, w).Some?
    ensures WorkerAt(Next(dec, s, e).value, w) == Some(s.workers[w])
    ensures !SenderAlive(Next(dec, s, e).value, s.workers[w].ch)
  {
    ReachableRouted(dec, n, s);
    FrozenStep(dec, s, w, e);
  }

  lemma QueuedIsAlive(s: Sys, ch: nat)
    ensures Queued(s, ch) ==> SenderAlive(s, ch)
  {
    if Queued(s, ch) {
      var k :| 0 <= k < |s.memQ| && s.memQ[k].ch == ch;
      assert s.memQ[k] in s.memQ;
    }
  }

  lemma FrozenClientMem(s: Sys, w: nat)
    requires w < |s.workers| && s.workers[w].Waiting? && !SenderAlive(s, s.workers[w].ch)
    requires ClientMemStep(s).Some?
    ensures WorkerAt(ClientMemStep(s).value, w) == Some(s.workers[w])
    ensures !SenderAlive(ClientMemStep(s).value, s.workers[w].ch)
  {
    hide Receiver, SenderAlive;
    var r := ClientMemStep(s).value;
    if s.down[0].addr in s.pending {
      RegisteredIsAlive(s, s.down[0].addr);
      ReceiverIsFirst(s.workers, s.pending[s.down[0].addr]);
    }
    if SenderAlive(r, s.workers[w].ch) {
      SenderAliveIn(s, r, s.workers[w].ch);
    }
  }

  lemma RegisteredIsAlive(s: Sys, a: nat)
    requires a in s.pending
    ensures SenderAlive(s, s.pending[a])
  {
  }

  lemma FrozenRegister(s: Sys, w: nat)
    requires Routed(s) && w < |s.workers| && s.workers[w].Waiting? && !SenderAlive(s, s.workers[w].ch)
    requires RegisterStep(s).Some?
    ensures WorkerAt(RegisterStep(s).value, w) == Some(s.workers[w])
    ensures !SenderAlive(RegisterStep(s).value, s.workers[w].ch)
  {
    assert s.memQ[0] in s.memQ;
  }

  lemma FrozenAskMem(s: Sys, w: nat, v: nat, addr: nat, len: nat)
    requires Routed(s) && w < |s.workers| && s.workers[w].Waiting? && !SenderAlive(s, s.workers[w].ch)
    requires AskMemStep(s, v, addr, len).Some?
    ensures WorkerAt(AskMemStep(s, v, addr, len).value, w) == Some(s.workers[w])
    ensures !SenderAlive(AskMemStep(s, v, addr, len).value, s.workers[w].ch)
  {
  }

  lemma FrozenOther(dec: Decoding, s: Sys, w: nat, e: Event)
    requires w < |s.workers| && s.workers[w].Waiting? && Next(dec, s, e).Some? && e != Wake(w)
    requires !e.ClientMem? && !e.AskMem? && !e.Register?
    ensures WorkerAt(Next(dec, s, e).value, w) == Some(s.workers[w])
    ensures forall ch :: SenderAlive(Next(dec, s, e).value, ch) ==> SenderAlive(s, ch)
  {
    hide SenderAlive;
    var r := Next(dec, s, e).value;
    assert r.memQ == s.memQ && r.pending == s.pending;
    forall ch | SenderAlive(r, ch) ensures SenderAlive(s, ch) {
      SenderAliveIn(s, r, ch);
    }
  }

  lemma SenderAliveIn(s: Sys, r: Sys, ch: nat)
    requires SenderAlive(r, ch) && r.memQ == s.memQ && r.pending == s.pending
    ensures SenderAlive(s, ch)
  {
  }

  lemma FrozenStep(dec: Decoding, s: Sys, w: nat, e: Event)
    requires Routed(s) && w < |s.workers| && s.workers[w].Waiting? && !SenderAlive(s, s.workers[w].ch)
    requires Next(dec, s, e).Some? && e != Wake(w)
    ensures WorkerAt(Next(dec, s, e).value, w) == Some(s.workers[w])
    ensures !SenderAlive(Next(dec, s, e).value, s.workers[w].ch)
  {
    match e
    case ClientMem => FrozenClientMem(s, w);
    case AskMem(v, addr, len) => FrozenAskMem(s, w, v, addr, len);
    case Register => FrozenRegister(s, w);
    case _ => FrozenOther(dec, s, w, e);
  }
}

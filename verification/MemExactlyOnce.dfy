// When no two outstanding memory requests share an address, every request gets
// exactly one reply: the client's receive loop never blocks on a full reply
// channel and never ends, and no waiter is released empty-handed. When two
// workers may ask for the same address, some run ends the loop.
module MemExactlyOnce {
  import opened Basics
  import opened Bags
  import opened ClientProtocol
  import opened MemRouting
  import CountMaps
  import SparseMaps
  import TaskConservation

  ghost function AskAddr(q: Ask): multiset<nat> { multiset{q.addr} }

  ghost function MsgAddr(m: Msg): multiset<nat> {
    if m.MemReq? || m.MemRsp? then multiset{m.addr} else multiset{}
  }

  ghost function WaitAddr(w: Worker): multiset<nat> {
    if w.Waiting? then multiset{w.addr} else multiset{}
  }

  /** A reply delivered to the channel but not received yet. */
  ghost function HeldAddr(w: Worker): multiset<nat> {
    if w.Waiting? && w.reply.Some? then multiset{w.addr} else multiset{}
  }

  ghost function ForwardingAddr(f: Option<(nat, nat)>): multiset<nat> {
    if f.Some? then multiset{f.value.0} else multiset{}
  }

  /** Requests and replies for address a anywhere between a worker's ask and its release. */
  ghost function InFlight(s: Sys, a: nat): nat {
    Sum(s.memQ, AskAddr)[a] + ForwardingAddr(s.forwarding)[a] + Sum(s.up, MsgAddr)[a] + Sum(s.down, MsgAddr)[a]
    + Sum(s.workers, HeldAddr)[a]
  }

  ghost function Waiters(s: Sys, a: nat): nat {
    Sum(s.workers, WaitAddr)[a]
  }

  /** One request or reply in flight for each waiter, for every address. */
  ghost predicate Matched(s: Sys) {
    forall a :: InFlight(s, a) == Waiters(s, a)
  }

  /** No two workers wait for the same address. */
  ghost predicate NoSharing(s: Sys) {
    forall i, j :: 0 <= i < j < |s.workers| && s.workers[i].Waiting? && s.workers[j].Waiting? ==>
      s.workers[i].addr != s.workers[j].addr
  }

  ghost predicate InQueue(s: Sys, addr: nat, ch: nat) {
    exists k :: 0 <= k < |s.memQ| && s.memQ[k].addr == addr && s.memQ[k].ch == ch
  }

  /** A waiter's sender is in the queue or registered under its address. */
  ghost predicate WaitersHeard(s: Sys) {
    forall i :: 0 <= i < |s.workers| && s.workers[i].Waiting? ==>
      || InQueue(s, s.workers[i].addr, s.workers[i].ch)
      || (s.workers[i].addr in s.pending && s.pending[s.workers[i].addr] == s.workers[i].ch)
  }

  ghost predicate WaitsOn(w: Worker, addr: nat, ch: nat) {
    w.Waiting? && w.addr == addr && w.ch == ch
  }

  /** The request belongs to a worker that still waits on it. */
  ghost predicate Wanted(s: Sys, q: Ask) {
    exists i :: 0 <= i < |s.workers| && WaitsOn(s.workers[i], q.addr, q.ch)
  }

  ghost predicate QueueWanted(s: Sys) {
    forall k :: 0 <= k < |s.memQ| ==> Wanted(s, s.memQ[k])
  }

  ghost predicate Exact(s: Sys) {
    && !s.broken && Matched(s) && NoSharing(s) && WaitersHeard(s) && QueueWanted(s)
    && Routed(s) && TaskConservation.WiresTyped(s)
  }

  // ---- Counting waiters --------------------------------------------------------------

  lemma {:induction false} NoWaiter(ws: seq<Worker>, a: nat)
    requires forall i :: 0 <= i < |ws| && ws[i].Waiting? ==> ws[i].addr != a
    ensures Sum(ws, WaitAddr)[a] == 0
  {
    if ws != [] {
      NoWaiter(ws[1..], a);
    }
  }

  lemma {:induction false} OneWaiter(ws: seq<Worker>, i: nat)
    requires i < |ws| && ws[i].Waiting?
    requires forall j :: 0 <= j < |ws| && j != i && ws[j].Waiting? ==> ws[j].addr != ws[i].addr
    ensures Sum(ws, WaitAddr)[ws[i].addr] == 1
  {
    if i == 0 {
      NoWaiter(ws[1..], ws[0].addr);
    } else {
      OneWaiter(ws[1..], i - 1);
    }
  }

  /** Anything in flight for a has exactly one waiter, and is the only thing in flight for a. */
  lemma TheWaiter(s: Sys, a: nat) returns (i: nat)
    requires Matched(s) && NoSharing(s) && InFlight(s, a) > 0
    ensures i < |s.workers| && s.workers[i].Waiting? && s.workers[i].addr == a
    ensures InFlight(s, a) == 1
    ensures forall j :: 0 <= j < |s.workers| && s.workers[j].Waiting? && s.workers[j].addr == a ==> j == i
  {
    assert Waiters(s, a) > 0;
    i := SumWitness(s.workers, a, WaitAddr);
    OneWaiter(s.workers, i);
  }

  lemma InQueueCounts(s: Sys, a: nat, ch: nat)
    requires InQueue(s, a, ch)
    ensures Sum(s.memQ, AskAddr)[a] > 0
  {
    var k :| 0 <= k < |s.memQ| && s.memQ[k].addr == a && s.memQ[k].ch == ch;
    SumContains(s.memQ, k, AskAddr);
    assert AskAddr(s.memQ[k])[a] == 1;
  }

  lemma HeldCounts(s: Sys, i: nat)
    requires i < |s.workers| && s.workers[i].Waiting? && s.workers[i].reply.Some?
    ensures Sum(s.workers, HeldAddr)[s.workers[i].addr] > 0
  {
    SumContains(s.workers, i, HeldAddr);
    assert HeldAddr(s.workers[i])[s.workers[i].addr] == 1;
  }

  /** A reply about to be received reaches its waiter, whose channel is empty. */
  lemma ReplyFindsItsWaiter(s: Sys) returns (i: nat)
    requires Exact(s) && s.down != [] && s.down[0].MemRsp?
    ensures i < |s.workers| && s.workers[i].Waiting? && s.workers[i].addr == s.down[0].addr
    ensures s.workers[i].reply.None?
    ensures s.down[0].addr in s.pending && Receiver(s.workers, s.pending[s.down[0].addr]) == i
  {
    var a := s.down[0].addr;
    SumContains(s.down, 0, MsgAddr);
    assert MsgAddr(s.down[0])[a] == 1;
    i := TheWaiter(s, a);
    if s.workers[i].reply.Some? {
      HeldCounts(s, i);
    }
    if InQueue(s, a, s.workers[i].ch) {
      InQueueCounts(s, a, s.workers[i].ch);
    }
    ReceiverIsFirst(s.workers, s.pending[a]);
    assert s.asked[s.workers[i].ch] == a;
  }

  // ---- Every step keeps requests matched with waiters ----------------------------------

  lemma AskMemMatched(s: Sys, w: nat, addr: nat, len: nat, a: nat)
    requires AskMemStep(s, w, addr, len).Some? && InFlight(s, a) == Waiters(s, a)
    ensures InFlight(AskMemStep(s, w, addr, len).value, a) == Waiters(AskMemStep(s, w, addr, len).value, a)
  {
    hide Sum;
    var x := Waiting(s.workers[w].task, addr, len, |s.asked|, None);
    SumSnocAt(s.memQ, Ask(addr, len, |s.asked|), AskAddr, a);
    SumUpdateAt(s.workers, w, x, WaitAddr, a);
    SumUpdateAt(s.workers, w, x, HeldAddr, a);
  }

  lemma RegisterMatched(s: Sys, a: nat)
    requires RegisterStep(s).Some? && InFlight(s, a) == Waiters(s, a)
    ensures InFlight(RegisterStep(s).value, a) == Waiters(RegisterStep(s).value, a)
  {
    hide Sum;
    SumPopAt(s.memQ, AskAddr, a);
  }

  lemma SendMemReqMatched(s: Sys, a: nat)
    requires SendMemReqStep(s).Some? && InFlight(s, a) == Waiters(s, a)
    ensures InFlight(SendMemReqStep(s).value, a) == Waiters(SendMemReqStep(s).value, a)
  {
    hide Sum;
    SumSnocAt(s.up, MemReq(s.forwarding.value.0, s.forwarding.value.1), MsgAddr, a);
  }

  lemma ServerMemMatched(s: Sys, memory: Bytes, a: nat)
    requires ServerMemStep(s, memory).Some? && InFlight(s, a) == Waiters(s, a)
    ensures InFlight(ServerMemStep(s, memory).value, a) == Waiters(ServerMemStep(s, memory).value, a)
  {
    hide Sum;
    SumPopAt(s.up, MsgAddr, a);
    SumSnocAt(s.down, MemRsp(s.up[0].addr, memory), MsgAddr, a);
  }

  lemma ClientMemMatched(s: Sys, i: nat, a: nat)
    requires Exact(s) && s.down != [] && s.down[0].MemRsp?
    requires i < |s.workers| && s.workers[i].Waiting? && s.workers[i].reply.None?
    requires s.workers[i].addr == s.down[0].addr
    ensures var r := s.(down := s.down[1..], workers := s.workers[i := s.workers[i].(reply := Some(s.down[0].data))]);
      InFlight(r, a) == Waiters(r, a)
  {
    hide Sum;
    var x := s.workers[i].(reply := Some(s.down[0].data));
    SumPopAt(s.down, MsgAddr, a);
    SumUpdateAt(s.workers, i, x, WaitAddr, a);
    SumUpdateAt(s.workers, i, x, HeldAddr, a);
    assert InFlight(s, a) == Waiters(s, a);
  }

  lemma WakeMatched(s: Sys, w: nat, a: nat)
    requires WakeStep(s, w).Some? && s.workers[w].reply.Some? && InFlight(s, a) == Waiters(s, a)
    ensures InFlight(WakeStep(s, w).value, a) == Waiters(WakeStep(s, w).value, a)
  {
    hide Sum;
    SumUpdateAt(s.workers, w, Busy(s.workers[w].task), WaitAddr, a);
    SumUpdateAt(s.workers, w, Busy(s.workers[w].task), HeldAddr, a);
  }

  /** Steps that carry tasks, counts and registrations leave memory requests alone. */
  predicate CarriesMemory(e: Event) {
    e.AskMem? || e.Register? || e.SendMemReq? || e.ServerMem? || e.ClientMem? || e.Wake?
  }

  lemma UpMatched(dec: Decoding, s: Sys, e: Event, a: nat)
    requires Next(dec, s, e).Some? && !CarriesMemory(e) && TaskConservation.WiresTyped(s)
    ensures Sum(Next(dec, s, e).value.up, MsgAddr)[a] == Sum(s.up, MsgAddr)[a]
  {
    hide Sum;
    match e
    case ServerReg => SumPopAt(s.up, MsgAddr, a);
    case ServerData => SumPopAt(s.up, MsgAddr, a);
    case Finish(w) => SumSnocAt(s.up, Next(dec, s, e).value.up[|s.up|], MsgAddr, a);
    case _ =>
  }

  lemma DownMatched(dec: Decoding, s: Sys, e: Event, a: nat)
    requires Next(dec, s, e).Some? && !CarriesMemory(e) && TaskConservation.WiresTyped(s)
    ensures Sum(Next(dec, s, e).value.down, MsgAddr)[a] == Sum(s.down, MsgAddr)[a]
  {
    hide Sum;
    match e
    case SendTask => SumSnocAt(s.down, DataReq(s.taskQ[0]), MsgAddr, a);
    case ServerReg => SumSnocAt(s.down, RegRsp, MsgAddr, a);
    case ClientReg => SumPopAt(s.down, MsgAddr, a);
    case ClientData => SumPopAt(s.down, MsgAddr, a);
    case _ =>
  }

  /** Of these steps only two change a worker. */
  lemma WorkersChange(dec: Decoding, s: Sys, e: Event)
    requires Next(dec, s, e).Some? && !CarriesMemory(e)
    ensures !e.Take? && !e.Finish? ==> Next(dec, s, e).value.workers == s.workers
    ensures e.Take? ==>
      e.w < |s.workers| && s.workers[e.w].Idle? && s.workQ != []
      && Next(dec, s, e).value.workers == s.workers[e.w := Busy(s.workQ[0])]
    ensures e.Finish? ==>
      e.w < |s.workers| && s.workers[e.w].Busy? && Next(dec, s, e).value.workers == s.workers[e.w := Idle]
  {
    hide CountMaps.Merge, CountMaps.AddIps, SparseMaps.Densify, SparseMaps.SparseOf;
  }

  lemma WorkersMatched(dec: Decoding, s: Sys, e: Event, a: nat)
    requires Next(dec, s, e).Some? && !CarriesMemory(e)
    ensures Sum(Next(dec, s, e).value.workers, WaitAddr)[a] == Sum(s.workers, WaitAddr)[a]
    ensures Sum(Next(dec, s, e).value.workers, HeldAddr)[a] == Sum(s.workers, HeldAddr)[a]
  {
    hide Sum, Next, CarriesMemory;
    WorkersChange(dec, s, e);
    if e.Take? {
      SumUpdateAt(s.workers, e.w, Busy(s.workQ[0]), WaitAddr, a);
      SumUpdateAt(s.workers, e.w, Busy(s.workQ[0]), HeldAddr, a);
    } else if e.Finish? {
      SumUpdateAt(s.workers, e.w, Idle, WaitAddr, a);
      SumUpdateAt(s.workers, e.w, Idle, HeldAddr, a);
    }
  }

  lemma QueueMatched(dec: Decoding, s: Sys, e: Event)
    requires Next(dec, s, e).Some? && !CarriesMemory(e)
    ensures var r := Next(dec, s, e).value;
      && r.memQ == s.memQ && r.forwarding == s.forwarding && r.pending == s.pending
  {
  }

  lemma OtherMatched(dec: Decoding, s: Sys, e: Event, a: nat)
    requires Next(dec, s, e).Some? && !CarriesMemory(e) && TaskConservation.WiresTyped(s)
    requires InFlight(s, a) == Waiters(s, a)
    ensures InFlight(Next(dec, s, e).value, a) == Waiters(Next(dec, s, e).value, a)
  {
    hide Next, Sum;
    UpMatched(dec, s, e, a);
    DownMatched(dec, s, e, a);
    WorkersMatched(dec, s, e, a);
    QueueMatched(dec, s, e);
  }

  // ---- Every step keeps who waits for what ---------------------------------------------

  ghost predicate SameWait(x: Worker, y: Worker) {
    x.Waiting? == y.Waiting? && (x.Waiting? ==> x.addr == y.addr && x.ch == y.ch)
  }

  /** The same workers wait on the same channels, with the same requests queued and registered. */
  ghost predicate SameWaits(s: Sys, r: Sys) {
    && r.memQ == s.memQ && r.pending == s.pending && |r.workers| == |s.workers|
    && forall i :: 0 <= i < |s.workers| ==> SameWait(r.workers[i], s.workers[i])
  }

  lemma SameHeard(s: Sys, r: Sys)
    requires WaitersHeard(s) && SameWaits(s, r)
    ensures WaitersHeard(r)
  {
    forall i | 0 <= i < |r.workers| && r.workers[i].Waiting?
      ensures || InQueue(r, r.workers[i].addr, r.workers[i].ch)
              || (r.workers[i].addr in r.pending && r.pending[r.workers[i].addr] == r.workers[i].ch)
    {
      assert SameWait(r.workers[i], s.workers[i]);
      assert InQueue(s, s.workers[i].addr, s.workers[i].ch) ==> InQueue(r, r.workers[i].addr, r.workers[i].ch);
    }
  }

  lemma SameWanted(s: Sys, r: Sys)
    requires QueueWanted(s) && SameWaits(s, r)
    ensures QueueWanted(r)
  {
    forall k | 0 <= k < |r.memQ|
      ensures Wanted(r, r.memQ[k])
    {
      assert Wanted(s, s.memQ[k]);
      var i :| 0 <= i < |s.workers| && WaitsOn(s.workers[i], s.memQ[k].addr, s.memQ[k].ch);
      assert SameWait(r.workers[i], s.workers[i]);
      assert WaitsOn(r.workers[i], r.memQ[k].addr, r.memQ[k].ch);
    }
  }

  lemma SameStructure(s: Sys, r: Sys)
    requires NoSharing(s) && WaitersHeard(s) && QueueWanted(s) && SameWaits(s, r)
    ensures NoSharing(r) && WaitersHeard(r) && QueueWanted(r)
  {
    SameHeard(s, r);
    SameWanted(s, r);
    hide WaitersHeard, QueueWanted;
    forall i, j | 0 <= i < j < |r.workers| && r.workers[i].Waiting? && r.workers[j].Waiting?
      ensures r.workers[i].addr != r.workers[j].addr
    {
      assert SameWait(r.workers[i], s.workers[i]) && SameWait(r.workers[j], s.workers[j]);
    }
  }

  lemma OtherStructure(dec: Decoding, s: Sys, e: Event)
    requires Exact(s) && Next(dec, s, e).Some?
    requires !e.AskMem? && !e.Register? && !e.Wake? && !e.ClientMem?
    ensures !Next(dec, s, e).value.broken && SameWaits(s, Next(dec, s, e).value)
  {
  }

  /** No worker already waits for an address. */
  ghost predicate NobodyWaits(s: Sys, addr: nat) {
    forall i :: 0 <= i < |s.workers| && s.workers[i].Waiting? ==> s.workers[i].addr != addr
  }

  lemma AskMemStructure(s: Sys, w: nat, addr: nat, len: nat)
    requires Exact(s) && AskMemStep(s, w, addr, len).Some? && NobodyWaits(s, addr)
    ensures var r := AskMemStep(s, w, addr, len).value;
      !r.broken && NoSharing(r) && WaitersHeard(r) && QueueWanted(r)
  {
    var r := AskMemStep(s, w, addr, len).value;
    var q := Ask(addr, len, |s.asked|);
    assert r.memQ[|s.memQ|] == q;
    assert InQueue(r, addr, |s.asked|);
    forall a, ch | InQueue(s, a, ch) ensures InQueue(r, a, ch) {
      var k :| 0 <= k < |s.memQ| && s.memQ[k].addr == a && s.memQ[k].ch == ch;
      assert r.memQ[k] == s.memQ[k];
    }
    forall k | 0 <= k < |r.memQ|
      ensures Wanted(r, r.memQ[k])
    {
      if k < |s.memQ| {
        assert Wanted(s, s.memQ[k]);
        var i :| 0 <= i < |s.workers| && WaitsOn(s.workers[i], s.memQ[k].addr, s.memQ[k].ch);
        assert i != w;
        assert WaitsOn(r.workers[i], r.memQ[k].addr, r.memQ[k].ch);
      } else {
        assert WaitsOn(r.workers[w], addr, |s.asked|);
      }
    }
  }

  lemma RegisterStructure(s: Sys)
    requires Exact(s) && RegisterStep(s).Some?
    ensures var r := RegisterStep(s).value;
      !r.broken && NoSharing(r) && WaitersHeard(r) && QueueWanted(r)
  {
    var r, q := RegisterStep(s).value, s.memQ[0];
    assert Wanted(s, q);
    var i0 :| 0 <= i0 < |s.workers| && WaitsOn(s.workers[i0], q.addr, q.ch);
    forall i | 0 <= i < |r.workers| && r.workers[i].Waiting?
      ensures || InQueue(r, r.workers[i].addr, r.workers[i].ch)
              || (r.workers[i].addr in r.pending && r.pending[r.workers[i].addr] == r.workers[i].ch)
    {
      var x := r.workers[i];
      if x.addr == q.addr {
        assert i == i0;
      } else if InQueue(s, x.addr, x.ch) {
        var k :| 0 <= k < |s.memQ| && s.memQ[k].addr == x.addr && s.memQ[k].ch == x.ch;
        assert r.memQ[k - 1] == s.memQ[k];
      }
    }
    forall k | 0 <= k < |r.memQ|
      ensures Wanted(r, r.memQ[k])
    {
      assert r.memQ[k] == s.memQ[k + 1];
    }
  }

  /** Nobody is released empty-handed. */
  lemma WakeHasData(s: Sys, w: nat)
    requires Exact(s) && WakeStep(s, w).Some?
    ensures s.workers[w].reply.Some?
  {
    if InQueue(s, s.workers[w].addr, s.workers[w].ch) {
      var k :| 0 <= k < |s.memQ| && s.memQ[k].addr == s.workers[w].addr && s.memQ[k].ch == s.workers[w].ch;
      assert s.memQ[k] in s.memQ;
    }
  }

  /** The request of a worker about to wake has left the queue. */
  lemma WakerNotQueued(s: Sys, w: nat, k: nat)
    requires Exact(s) && WakeStep(s, w).Some? && k < |s.memQ|
    ensures s.memQ[k].addr != s.workers[w].addr
  {
    WakeHasData(s, w);
    HeldCounts(s, w);
    var i := TheWaiter(s, s.workers[w].addr);
    if s.memQ[k].addr == s.workers[w].addr {
      assert InQueue(s, s.memQ[k].addr, s.memQ[k].ch);
      InQueueCounts(s, s.memQ[k].addr, s.memQ[k].ch);
    }
  }

  lemma WakeStructure(s: Sys, w: nat)
    requires Exact(s) && WakeStep(s, w).Some?
    ensures var r := WakeStep(s, w).value;
      !r.broken && NoSharing(r) && WaitersHeard(r) && QueueWanted(r)
  {
    var r := WakeStep(s, w).value;
    assert forall a, ch :: InQueue(s, a, ch) ==> InQueue(r, a, ch);
    forall k | 0 <= k < |r.memQ|
      ensures Wanted(r, r.memQ[k])
    {
      WakerNotQueued(s, w, k);
      assert Wanted(s, s.memQ[k]);
      var i :| 0 <= i < |s.workers| && WaitsOn(s.workers[i], s.memQ[k].addr, s.memQ[k].ch);
      assert r.workers[i] == s.workers[i];
    }
  }

  // ---- Disciplined runs -------------------------------------------------------------------

  /** A request is made only for an address nobody waits for. */
  ghost predicate Allowed(s: Sys, e: Event) {
    e.AskMem? ==> NobodyWaits(s, e.addr)
  }

  lemma ClientMemExact(dec: Decoding, s: Sys)
    requires Exact(s) && ClientMemStep(s).Some?
    ensures Exact(ClientMemStep(s).value)
  {
    var r := ClientMemStep(s).value;
    var i := ReplyFindsItsWaiter(s);
    assert r == s.(down := s.down[1..], workers := s.workers[i := s.workers[i].(reply := Some(s.down[0].data))]);
    forall a ensures InFlight(r, a) == Waiters(r, a) {
      ClientMemMatched(s, i, a);
    }
    SameStructure(s, r);
    ClientMemRouted(s);
    TaskConservation.WiresStep(dec, s, ClientMem);
  }

  lemma MatchedStep(dec: Decoding, s: Sys, e: Event, a: nat)
    requires Exact(s) && Next(dec, s, e).Some? && !e.ClientMem?
    ensures InFlight(Next(dec, s, e).value, a) == Waiters(Next(dec, s, e).value, a)
  {
    hide Sum, InFlight, Waiters;
    assert InFlight(s, a) == Waiters(s, a);
    match e
    case AskMem(w, addr, len) => AskMemMatched(s, w, addr, len, a);
    case Register => RegisterMatched(s, a);
    case SendMemReq => SendMemReqMatched(s, a);
    case ServerMem(memory) => ServerMemMatched(s, memory, a);
    case Wake(w) =>
      WakeHasData(s, w);
      WakeMatched(s, w, a);
    case _ => OtherMatched(dec, s, e, a);
  }

  lemma StructureStep(dec: Decoding, s: Sys, e: Event)
    requires Exact(s) && Next(dec, s, e).Some? && Allowed(s, e) && !e.ClientMem?
    ensures var r := Next(dec, s, e).value;
      !r.broken && NoSharing(r) && WaitersHeard(r) && QueueWanted(r)
  {
    if e.AskMem? {
      AskMemStructure(s, e.w, e.addr, e.len);
    } else if e.Register? {
      RegisterStructure(s);
    } else if e.Wake? {
      WakeStructure(s, e.w);
    } else {
      OtherStructure(dec, s, e);
      SameStructure(s, Next(dec, s, e).value);
    }
  }

  lemma StepExact(dec: Decoding, s: Sys, e: Event)
    requires Exact(s) && Next(dec, s, e).Some? && Allowed(s, e)
    ensures Exact(Next(dec, s, e).value)
  {
    if e.ClientMem? {
      ClientMemExact(dec, s);
    } else {
      hide Next;
      forall a ensures InFlight(Next(dec, s, e).value, a) == Waiters(Next(dec, s, e).value, a) {
        MatchedStep(dec, s, e, a);
      }
      StructureStep(dec, s, e);
      StepRouted(dec, s, e);
      TaskConservation.WiresStep(dec, s, e);
    }
  }

  lemma InitExact(n: nat)
    ensures Exact(Init(n))
  {
    var s := Init(n);
    forall a ensures InFlight(s, a) == Waiters(s, a) {
      NoWaiter(s.workers, a);
      NothingHeld(s.workers);
      SumSnocAt([], RegReq, MsgAddr, a);
      assert s.up == [] + [RegReq];
    }
  }

  lemma {:induction false} NothingHeld(ws: seq<Worker>)
    requires forall i :: 0 <= i < |ws| ==> ws[i].Idle?
    ensures Sum(ws, HeldAddr) == multiset{}
  {
    if ws != [] {
      NothingHeld(ws[1..]);
    }
  }

  /** Every request of the run was made for an address nobody was waiting for. */
  ghost predicate Disciplined(dec: Decoding, s: Sys, es: seq<Event>)
    decreases |es|
  {
    es != [] ==>
      && Allowed(s, es[0])
      && (Next(dec, s, es[0]).Some? ==> Disciplined(dec, Next(dec, s, es[0]).value, es[1..]))
  }

  lemma {:induction false} RunExact(dec: Decoding, s: Sys, es: seq<Event>)
    requires Exact(s) && Disciplined(dec, s, es) && Run(dec, s, es).Some?
    ensures Exact(Run(dec, s, es).value)
    decreases |es|
  {
    if es != [] {
      StepExact(dec, s, es[0]);
      RunExact(dec, Next(dec, s, es[0]).value, es[1..]);
    }
  }

  /** Whatever arrives next, the client's receive loop can handle it. */
  ghost predicate CanReceive(s: Sys) {
    s.down != [] ==> ClientRegStep(s).Some? || ClientDataStep(s).Some? || ClientMemStep(s).Some?
  }

  lemma ExactCanReceive(s: Sys)
    requires Exact(s)
    ensures CanReceive(s)
  {
    if s.down != [] && s.down[0].MemRsp? {
      var i := ReplyFindsItsWaiter(s);
    }
  }

  /**
   * Exactly one reply. In every disciplined run each waiting worker has exactly one
   * request or reply in flight and no other address has any; the receive loop has
   * not ended and can handle what comes next; and a released worker holds bytes the
   * server sent for its address.
   */
  lemma ExactlyOneReply(dec: Decoding, n: nat, es: seq<Event>, s: Sys)
    requires Run(dec, Init(n), es) == Some(s) && Disciplined(dec, Init(n), es)
    ensures !s.broken && CanReceive(s)
    ensures forall a :: InFlight(s, a) == Waiters(s, a) <= 1
    ensures forall w: nat :: WakeStep(s, w).Some? ==>
      s.workers[w].reply.Some? && (s.workers[w].addr, s.workers[w].reply.value) in s.served
  {
    InitExact(n);
    RunExact(dec, Init(n), es);
    ExactCanReceive(s);
    forall a ensures InFlight(s, a) == Waiters(s, a) <= 1 {
      if InFlight(s, a) > 0 {
        var i := TheWaiter(s, a);
      }
    }
    forall w: nat | WakeStep(s, w).Some? ensures s.workers[w].reply.Some? {
      WakeHasData(s, w);
    }
  }

  // ---- Every request is answered ------------------------------------------------------------

  /** Steps of the loops that move messages along; they need nobody else's cooperation. */
  predicate Forwarding(e: Event) {
    e.Register? || e.SendMemReq? || e.ServerReg? || e.ServerMem? || e.ServerData?
    || e.ClientReg? || e.ClientData? || e.ClientMem? || e.Wake?
  }

  /** How far everything in the system still has to travel. */
  ghost function Hops(s: Sys): nat {
    5 * |s.memQ| + (if s.forwarding.Some? then 4 else 0) + 3 * |s.up| + 2 * |s.down| + |Sum(s.workers, HeldAddr)|
  }

  lemma DeliverHops(s: Sys)
    requires Exact(s) && ClientMemStep(s).Some?
    ensures Hops(ClientMemStep(s).value) < Hops(s)
  {
    hide Sum;
    var i := ReplyFindsItsWaiter(s);
    SumUpdateSize(s.workers, i, s.workers[i].(reply := Some(s.down[0].data)), HeldAddr);
  }

  lemma WakeHops(s: Sys, w: nat)
    requires Exact(s) && WakeStep(s, w).Some?
    ensures Hops(WakeStep(s, w).value) < Hops(s)
  {
    hide Sum;
    WakeHasData(s, w);
    SumUpdateSize(s.workers, w, Busy(s.workers[w].task), HeldAddr);
  }

  lemma ForwardingApproaches(dec: Decoding, s: Sys, e: Event)
    requires Exact(s) && Forwarding(e) && Next(dec, s, e).Some?
    ensures Hops(Next(dec, s, e).value) < Hops(s)
  {
    hide Sum;
    if e.ClientMem? {
      DeliverHops(s);
    } else if e.Wake? {
      WakeHops(s, e.w);
    }
  }

  lemma FrontMoves(dec: Decoding, s: Sys) returns (e: Event)
    requires Exact(s) && (s.up != [] || s.down != [])
    ensures Forwarding(e) && Next(dec, s, e).Some?
  {
    if s.up != [] {
      e := if s.up[0].RegReq? then ServerReg else if s.up[0].MemReq? then ServerMem(Zeros(REPLY_SIZE)) else ServerData;
    } else {
      ExactCanReceive(s);
      e := if s.down[0].RegRsp? then ClientReg else if s.down[0].DataReq? then ClientData else ClientMem;
    }
  }

  lemma OnlyHeldInFlight(s: Sys, a: nat)
    requires s.memQ == [] && s.forwarding.None? && s.up == [] && s.down == []
    ensures InFlight(s, a) == Sum(s.workers, HeldAddr)[a]
  {
  }

  lemma WaiterCounts(s: Sys, w: nat)
    requires w < |s.workers| && s.workers[w].Waiting?
    ensures Waiters(s, s.workers[w].addr) > 0
  {
    SumContains(s.workers, w, WaitAddr);
    assert WaitAddr(s.workers[w])[s.workers[w].addr] == 1;
  }

  /** While a worker waits, some loop can move. */
  lemma SomethingMoves(dec: Decoding, s: Sys, w: nat) returns (e: Event)
    requires Exact(s) && w < |s.workers| && s.workers[w].Waiting?
    ensures Forwarding(e) && Next(dec, s, e).Some?
  {
    hide Sum, InFlight, Waiters;
    if s.memQ != [] || s.forwarding.Some? {
      e := if s.forwarding.Some? then SendMemReq else Register;
    } else if s.up != [] || s.down != [] {
      e := FrontMoves(dec, s);
    } else {
      var a := s.workers[w].addr;
      WaiterCounts(s, w);
      assert InFlight(s, a) == Waiters(s, a);
      OnlyHeldInFlight(s, a);
      var i := SumWitness(s.workers, a, HeldAddr);
      e := Wake(i);
    }
  }

  /** From every state of a disciplined run the loops alone bring every waiter its reply. */
  lemma {:induction false} EveryRequestIsAnswered(dec: Decoding, s: Sys) returns (es: seq<Event>)
    requires Exact(s)
    ensures forall i :: 0 <= i < |es| ==> Forwarding(es[i])
    ensures Run(dec, s, es).Some?
    ensures forall i :: 0 <= i < |Run(dec, s, es).value.workers| ==> !Run(dec, s, es).value.workers[i].Waiting?
    decreases Hops(s)
  {
    if w :| 0 <= w < |s.workers| && s.workers[w].Waiting? {
      var e := SomethingMoves(dec, s, w);
      StepExact(dec, s, e);
      ForwardingApproaches(dec, s, e);
      var rest := EveryRequestIsAnswered(dec, Next(dec, s, e).value);
      es := [e] + rest;
      assert es[1..] == rest;
    } else {
      es := [];
    }
  }

  ghost predicate NobodyWaiting(s: Sys) {
    forall i :: 0 <= i < |s.workers| ==> !s.workers[i].Waiting?
  }

  /** No loop can move. */
  ghost predicate AllLoopsRest(dec: Decoding, s: Sys) {
    forall e :: Forwarding(e) ==> Next(dec, s, e).None?
  }

  /**
   * Whatever the schedule: the loops can make at most Hops(s) steps before someone else
   * has to act, and when none of them can move any more, nobody waits.
   */
  lemma {:induction false} EveryScheduleAnswers(dec: Decoding, s: Sys, es: seq<Event>)
    requires Exact(s) && Run(dec, s, es).Some? && forall i :: 0 <= i < |es| ==> Forwarding(es[i])
    ensures |es| + Hops(Run(dec, s, es).value) <= Hops(s)
    ensures AllLoopsRest(dec, Run(dec, s, es).value) ==> NobodyWaiting(Run(dec, s, es).value)
    decreases |es|
  {
    hide Next, Exact, Hops;
    if es == [] {
      if w :| 0 <= w < |s.workers| && s.workers[w].Waiting? {
        var e := SomethingMoves(dec, s, w);
      }
    } else {
      ForwardingAsksNothing(s, es[0]);
      StepExact(dec, s, es[0]);
      ForwardingApproaches(dec, s, es[0]);
      EveryScheduleAnswers(dec, Next(dec, s, es[0]).value, es[1..]);
    }
  }

  lemma ForwardingAsksNothing(s: Sys, e: Event)
    requires Forwarding(e)
    ensures Allowed(s, e)
  {
  }
}

// One server-side agent and the client it talks to, as a step system.
//
// The server publishes tasks into a bounded queue; a send loop moves them onto
// the wire; a receive loop handles what the client sends. The client's receive
// loop feeds a work queue shared by its workers, and a forward loop sends the
// workers' memory requests. Both wires are lossless FIFO. Every step below is
// one atomic action of one of those loops, of one worker, or of a caller; a run
// is any sequence of enabled steps, so a property of all runs is a property of
// all interleavings.
module ClientProtocol {
  import opened Basics
  import opened CountMaps
  import opened SparseMaps

  type Task = Bytes

  /** What decoding a task executes, in order. A fixed function of the task. */
  type Decoding = Task -> seq<nat>

  const QUEUE_BOUND: nat := 1024
  const REPLY_SIZE: nat := 8192

  datatype Msg =
    | RegReq
    | RegRsp
    | DataReq(task: Task)
    | DataRsp(counts: Sparse)
    | MemReq(addr: nat, len: nat)
    | MemRsp(addr: nat, data: Bytes)

  /** A worker; Waiting holds the receiving end of its one-place reply channel. */
  datatype Worker =
    | Idle
    | Busy(task: Task)
    | Waiting(task: Task, addr: nat, len: nat, ch: nat, reply: Option<Bytes>)

  /** A memory request on its way to the forward loop, with its reply channel. */
  datatype Ask = Ask(addr: nat, len: nat, ch: nat)

  datatype Sys = Sys(
    active: bool,                    // server: state is Activate
    serverDown: bool,                // server: the receive loop took its break
    taskQ: seq<Task>,                // server: tx_proc_data
    rst: Dense,                      // server: rst_data
    down: seq<Msg>,                  // wire, server to client
    up: seq<Msg>,                    // wire, client to server
    broken: bool,                    // client: the receive loop ended
    workQ: seq<Task>,                // client: proc_tx / proc_rx
    workers: seq<Worker>,
    memQ: seq<Ask>,                  // client: send_mem_req
    forwarding: Option<(nat, nat)>,  // client: registered, MemReq not sent yet
    pending: map<nat, nat>,          // client: mem_req_lst, address to channel
    asked: seq<nat>,                 // history: the address channel i was made for
    got: Dense,                      // history: everything fetch_result returned
    published: seq<Task>,            // history
    done: multiset<Task>,            // history: tasks whose result was sent
    served: set<(nat, Bytes)>)       // history: replies the server sent

  /** A receive loop's iteration is named after the message it meets. */
  datatype Event =
    | Publish(task: Task)
    | SendTask
    | ServerReg
    | ServerMem(memory: Bytes)       // what the process memory read yields
    | ServerData
    | ServerOther
    | Fetch
    | ClientReg
    | ClientData
    | ClientMem
    | ClientOther
    | Take(w: nat)
    | AskMem(w: nat, addr: nat, len: nat)
    | Register
    | SendMemReq
    | Wake(w: nat)
    | Finish(w: nat)

  function Init(n: nat): Sys {
    Sys(false, false, [], map[], [], [RegReq], false, [], seq(n, i => Idle), [], None, map[], [],
        map[], [], multiset{}, {})
  }

  // ---- Steps ---------------------------------------------------------------

  /** publish_task: blocks while the bounded queue is full. */
  function PublishStep(s: Sys, task: Task): Option<Sys> {
    if |s.taskQ| < QUEUE_BOUND then
      Some(s.(taskQ := s.taskQ + [task], published := s.published + [task]))
    else None
  }

  function SendTaskStep(s: Sys): Option<Sys> {
    if s.taskQ != [] then
      Some(s.(taskQ := s.taskQ[1..], down := s.down + [DataReq(s.taskQ[0])]))
    else None
  }

  // The server's receive loop. It ends on any message it does not expect.

  function ServerRegStep(s: Sys): Option<Sys> {
    if !s.serverDown && s.up != [] && s.up[0].RegReq? then
      Some(s.(up := s.up[1..], active := true, down := s.down + [RegRsp]))
    else None
  }

  function ServerMemStep(s: Sys, memory: Bytes): Option<Sys> {
    if !s.serverDown && s.up != [] && s.up[0].MemReq? && |memory| == REPLY_SIZE then
      Some(s.(up := s.up[1..], down := s.down + [MemRsp(s.up[0].addr, memory)],
              served := s.served + {(s.up[0].addr, memory)}))
    else None
  }

  function ServerDataStep(s: Sys): Option<Sys> {
    if !s.serverDown && s.up != [] && s.up[0].DataRsp? then
      Some(s.(up := s.up[1..], rst := Merge(s.rst, Densify(s.up[0].counts))))
    else None
  }

  function ServerOtherStep(s: Sys): Option<Sys> {
    if !s.serverDown && s.up != [] && !s.up[0].RegReq? && !s.up[0].MemReq? && !s.up[0].DataRsp? then
      Some(s.(up := s.up[1..], serverDown := true))
    else None
  }

  function FetchStep(s: Sys): Option<Sys> {
    Some(s.(got := Merge(s.got, s.rst), rst := map[]))
  }

  /** The worker holding the receiver of channel ch, or |ws| when it was dropped. */
  function Receiver(ws: seq<Worker>, ch: nat): (w: nat)
    ensures w <= |ws| && (w < |ws| ==> ws[w].Waiting?)
  {
    if ws == [] then 0
    else if ws[0].Waiting? && ws[0].ch == ch then 0
    else 1 + Receiver(ws[1..], ch)
  }

  lemma {:induction false} ReceiverIsFirst(ws: seq<Worker>, ch: nat)
    ensures Receiver(ws, ch) < |ws| ==> ws[Receiver(ws, ch)].ch == ch
    ensures forall i :: 0 <= i < |ws| && ws[i].Waiting? && ws[i].ch == ch ==> Receiver(ws, ch) <= i
  {
    if ws != [] && !(ws[0].Waiting? && ws[0].ch == ch) {
      ReceiverIsFirst(ws[1..], ch);
      forall i | 0 <= i < |ws| && ws[i].Waiting? && ws[i].ch == ch ensures Receiver(ws, ch) <= i {
        assert ws[i] == ws[1..][i - 1];
      }
    }
  }

  // The client's receive loop. It ends on an unexpected message or a failed reply.

  function ClientRegStep(s: Sys): Option<Sys> {
    if !s.broken && s.down != [] && s.down[0].RegRsp? then Some(s.(down := s.down[1..])) else None
  }

  function ClientDataStep(s: Sys): Option<Sys> {
    if !s.broken && s.down != [] && s.down[0].DataReq? then
      Some(s.(down := s.down[1..], workQ := s.workQ + [s.down[0].task]))
    else None
  }

  /** A reply sent to the channel worker w receives on, or to one nobody receives on. */
  function DeliverTo(s: Sys, w: nat, data: Bytes): Option<Sys>
    requires s.down != [] && w <= |s.workers| && (w < |s.workers| ==> s.workers[w].Waiting?)
  {
    if w == |s.workers| then Some(s.(down := s.down[1..], broken := true))
    else if s.workers[w].reply.Some? then None
    else Some(s.(down := s.down[1..], workers := s.workers[w := s.workers[w].(reply := Some(data))]))
  }

  /** A memory reply is dropped, delivered, blocks the loop (None), or ends it. */
  function ClientMemStep(s: Sys): Option<Sys> {
    if !s.broken && s.down != [] && s.down[0].MemRsp? then
      if s.down[0].addr !in s.pending then Some(s.(down := s.down[1..]))
      else DeliverTo(s, Receiver(s.workers, s.pending[s.down[0].addr]), s.down[0].data)
    else None
  }

  function ClientOtherStep(s: Sys): Option<Sys> {
    if !s.broken && s.down != [] && !s.down[0].RegRsp? && !s.down[0].DataReq? && !s.down[0].MemRsp? then
      Some(s.(down := s.down[1..], broken := true))
    else None
  }

  function TakeStep(s: Sys, w: nat): Option<Sys> {
    if w < |s.workers| && s.workers[w].Idle? && s.workQ != [] then
      Some(s.(workQ := s.workQ[1..], workers := s.workers[w := Busy(s.workQ[0])]))
    else None
  }

  /** read_mem up to its blocking recv: a fresh channel, its sender queued with the request. */
  function AskMemStep(s: Sys, w: nat, addr: nat, len: nat): Option<Sys> {
    if w < |s.workers| && s.workers[w].Busy? then
      var ch := |s.asked|;
      Some(s.(memQ := s.memQ + [Ask(addr, len, ch)], asked := s.asked + [addr],
              workers := s.workers[w := Waiting(s.workers[w].task, addr, len, ch, None)]))
    else None
  }

  /** Forward loop, first half: insert the sender; an entry for the same address is dropped. */
  function RegisterStep(s: Sys): Option<Sys> {
    if s.forwarding.None? && s.memQ != [] then
      var q := s.memQ[0];
      Some(s.(memQ := s.memQ[1..], pending := s.pending[q.addr := q.ch], forwarding := Some((q.addr, q.len))))
    else None
  }

  /** Forward loop, second half: send the request. */
  function SendMemReqStep(s: Sys): Option<Sys> {
    if s.forwarding.Some? then
      Some(s.(up := s.up + [MemReq(s.forwarding.value.0, s.forwarding.value.1)], forwarding := None))
    else None
  }

  /** Some sender of channel ch still exists. */
  ghost predicate SenderAlive(s: Sys, ch: nat) {
    (exists a :: a in s.pending && s.pending[a] == ch) ||
    (exists q :: q in s.memQ && q.ch == ch)
  }

  /** The blocking recv returns: with data, or with an error once every sender is gone. */
  ghost function WakeStep(s: Sys, w: nat): Option<Sys> {
    if w < |s.workers| && s.workers[w].Waiting?
       && (s.workers[w].reply.Some? || !SenderAlive(s, s.workers[w].ch)) then
      Some(s.(workers := s.workers[w := Busy(s.workers[w].task)]))
    else None
  }

  /** The worker sends its result, in sparse form, and goes back to the work queue. */
  function FinishStep(dec: Decoding, s: Sys, w: nat): Option<Sys> {
    if w < |s.workers| && s.workers[w].Busy? then
      var task := s.workers[w].task;
      Some(s.(up := s.up + [DataRsp(SparseOf(AddIps(map[], dec(task))))],
              workers := s.workers[w := Idle], done := s.done + multiset{task}))
    else None
  }

  ghost function Next(dec: Decoding, s: Sys, e: Event): Option<Sys> {
    match e
    case Publish(task) => PublishStep(s, task)
    case SendTask => SendTaskStep(s)
    case ServerReg => ServerRegStep(s)
    case ServerMem(memory) => ServerMemStep(s, memory)
    case ServerData => ServerDataStep(s)
    case ServerOther => ServerOtherStep(s)
    case Fetch => FetchStep(s)
    case ClientReg => ClientRegStep(s)
    case ClientData => ClientDataStep(s)
    case ClientMem => ClientMemStep(s)
    case ClientOther => ClientOtherStep(s)
    case Take(w) => TakeStep(s, w)
    case AskMem(w, addr, len) => AskMemStep(s, w, addr, len)
    case Register => RegisterStep(s)
    case SendMemReq => SendMemReqStep(s)
    case Wake(w) => WakeStep(s, w)
    case Finish(w) => FinishStep(dec, s, w)
  }

  /** The state after a sequence of events, when every one of them was enabled. */
  ghost function Run(dec: Decoding, s: Sys, es: seq<Event>): Option<Sys>
    decreases |es|
  {
    if es == [] then Some(s) else
      var r := Next(dec, s, es[0]);
      if r.None? then None else Run(dec, r.value, es[1..])
  }

  /** s is reached by some run of a client with n workers. */
  ghost predicate Reachable(dec: Decoding, n: nat, s: Sys) {
    exists es :: Run(dec, Init(n), es) == Some(s)
  }

  lemma {:induction false} RunOneMore(dec: Decoding, s: Sys, es: seq<Event>, e: Event)
    requires Run(dec, s, es).Some?
    ensures Run(dec, s, es + [e]) == Next(dec, Run(dec, s, es).value, e)
    decreases |es|
  {
    hide Next;
    if es == [] {
      assert es + [e] == [e] && [e][1..] == [];
    } else {
      assert (es + [e])[1..] == es[1..] + [e];
      RunOneMore(dec, Next(dec, s, es[0]).value, es[1..], e);
    }
  }

  lemma ReachableInit(dec: Decoding, n: nat)
    ensures Reachable(dec, n, Init(n))
  {
    assert Run(dec, Init(n), []) == Some(Init(n));
  }

  lemma ReachableNext(dec: Decoding, n: nat, s: Sys, e: Event)
    requires Reachable(dec, n, s) && Next(dec, s, e).Some?
    ensures Reachable(dec, n, Next(dec, s, e).value)
  {
    hide Next;
    var es :| Run(dec, Init(n), es) == Some(s);
    RunOneMore(dec, Init(n), es, e);
  }
}

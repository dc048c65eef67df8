// The client with workers that really decode. A worker runs its task's decoder step by
// step against its own cache; a read that misses a page asks the server for it and goes
// on with whatever the reply left in the page buffer, and the result sent is what the
// decoder's answers made it count. ClientProtocol takes the result of a task to be a
// fixed function of the task; here that is proved, of every run in which no two workers
// wait for the same page and the server's replies are memory. Every theorem about runs
// of ClientProtocol then holds of these runs.
module DecodingWorkers {
  import opened Basics
  import opened CountMaps
  import opened PageCache
  import opened CacheTransparency
  import opened CacheLoads
  import opened CachedDecode
  import opened ClientProtocol
  import opened DecodeLoop
  import SparseMaps
  import opened MemRouting
  import opened MemExactlyOnce
  import opened TaskConservation

  /** How the decoder behaves on each task. */
  type Program = Task -> Strategy

  /** A worker's own state: its cache, and how far the decoder of its task is. */
  datatype Mind = Mind(cache: Cache, h: seq<ReadResult>, k: nat, out: seq<Action>)

  datatype Client = Client(sys: Sys, minds: seq<Mind>)

  datatype Move =
    | Loops(e: Event)       // a step of a loop or of the server
    | TakeTask(w: nat)
    | Think(w: nat)         // an answer of the decoder, or a read that the cache can serve
    | AskPage(w: nat)       // read_mem for the page a read misses
    | Receive(w: nat)       // read_mem returns, and the page enters the cache
    | SendResult(w: nat)

  const FRESH: Mind := Mind(EMPTY, [], 0, [])

  ghost predicate AllServable(prog: Program) {
    forall t :: ReadsServable(prog(t))
  }

  predicate IsLoopEvent(e: Event) {
    !e.Take? && !e.AskMem? && !e.Wake? && !e.Finish?
  }

  /** The first page of a read that is not cached. */
  function Missing(c: Cache, addr: nat, len: nat): Option<nat> {
    if PageOf(addr) !in c.pages then Some(PageOf(addr))
    else if PageOf(addr + len) !in c.pages then Some(PageOf(addr + len))
    else None
  }

  /** The page buffer after read_mem, put into the cache. */
  function WithPage(c: Cache, p: nat, data: Bytes): Cache {
    c.(pages := c.pages[p := data], lastContent := Some(p), log := c.log + [Load(p, true)])
  }

  function ActionOf(prog: Program, x: Client, w: nat): Action
    requires w < |x.minds| && w < |x.sys.workers| && x.sys.workers[w].Busy?
  {
    prog(x.sys.workers[w].task)(x.minds[w].k, x.minds[w].h)
  }

  predicate IsBusy(x: Client, w: nat) {
    w < |x.minds| && w < |x.sys.workers| && x.sys.workers[w].Busy?
  }

  ghost function TakeMove(x: Client, w: nat): Option<Client> {
    var r := TakeStep(x.sys, w);
    if r.None? || w >= |x.minds| then None
    else Some(Client(r.value, x.minds[w := FRESH.(cache := x.minds[w].cache)]))
  }

  ghost function ThinkMove(prog: Program, x: Client, w: nat): Option<Client> {
    if !IsBusy(x, w) then None else
      var a, m := ActionOf(prog, x, w), x.minds[w];
      if a.Done? then None
      else if !a.ReadMem? then Some(x.(minds := x.minds[w := m.(k := m.k + 1, out := m.out + [a])]))
      else if WellFormed(m.cache) && CanGet(m.cache, a.addr, |a.buf|) && Missing(m.cache, a.addr, |a.buf|).None? then
        var (c, r) := Get(m.cache, a.addr, a.buf);
        Some(x.(minds := x.minds[w := Mind(c, m.h + [r], m.k + 1, m.out)]))
      else None
  }

  ghost function AskMove(prog: Program, x: Client, w: nat): Option<Client> {
    if !IsBusy(x, w) then None else
      var a, m := ActionOf(prog, x, w), x.minds[w];
      if !a.ReadMem? || Missing(m.cache, a.addr, |a.buf|).None? then None
      else
        var r := AskMemStep(x.sys, w, Missing(m.cache, a.addr, |a.buf|).value, PAGE_SIZE);
        if r.None? then None else Some(x.(sys := r.value))
  }

  ghost function ReceiveMove(x: Client, w: nat): Option<Client> {
    var r := WakeStep(x.sys, w);
    if r.None? || w >= |x.minds| then None
    else
      var v, m := x.sys.workers[w], x.minds[w];
      var page := RemoteRead(v.reply, Zeros(PAGE_SIZE)).data;
      Some(Client(r.value, x.minds[w := m.(cache := WithPage(m.cache, v.addr, page))]))
  }

  ghost function SendMove(prog: Program, x: Client, w: nat): Option<Client> {
    if !IsBusy(x, w) || !ActionOf(prog, x, w).Done? then None else
      var counted := CountedBy(x.minds[w].out);
      Some(x.(sys := FinishStep(t => counted, x.sys, w).value))
  }

  ghost function LoopMove(x: Client, e: Event): Option<Client> {
    if !IsLoopEvent(e) then None else
      var r := Next(t => [], x.sys, e);
      if r.None? then None else Some(x.(sys := r.value))
  }

  ghost function MoveOf(prog: Program, x: Client, m: Move): Option<Client> {
    match m
    case Loops(e) => LoopMove(x, e)
    case TakeTask(w) => TakeMove(x, w)
    case Think(w) => ThinkMove(prog, x, w)
    case AskPage(w) => AskMove(prog, x, w)
    case Receive(w) => ReceiveMove(x, w)
    case SendResult(w) => SendMove(prog, x, w)
  }

  function InitClient(n: nat): Client {
    Client(Init(n), seq(n, i => FRESH))
  }

  /** The server's reply is memory, and a page is asked for only when nobody waits for it. */
  ghost predicate GoodMove(prog: Program, mem: nat -> byte, x: Client, m: Move) {
    && (m.Loops? && m.e.ServerMem? && x.sys.up != [] && x.sys.up[0].MemReq? && |m.e.memory| == REPLY_SIZE ==>
          IsMemory(mem, x.sys.up[0].addr, m.e.memory[..PAGE_SIZE]))
    && (m.AskPage? && IsBusy(x, m.w) ==>
          var a := ActionOf(prog, x, m.w);
          a.ReadMem? && Missing(x.minds[m.w].cache, a.addr, |a.buf|).Some? ==>
            NobodyWaits(x.sys, Missing(x.minds[m.w].cache, a.addr, |a.buf|).value))
  }

  /** x is reached from the start by good moves. */
  ghost predicate GoodRun(prog: Program, mem: nat -> byte, from: Client, ms: seq<Move>, x: Client)
    decreases |ms|
  {
    if ms == [] then from == x else
      && GoodMove(prog, mem, from, ms[0])
      && MoveOf(prog, from, ms[0]).Some?
      && GoodRun(prog, mem, MoveOf(prog, from, ms[0]).value, ms[1..], x)
  }

  // ---- What decoding against memory gives -----------------------------------------------

  /** What the reads returned and the answers given in the first k steps against memory. */
  ghost function Direct(d: Strategy, mem: nat -> byte, k: nat): (seq<ReadResult>, seq<Action>)
    requires ReadsServable(d)
  {
    if k == 0 then ([], []) else
      var (h, out) := Direct(d, mem, k - 1);
      var a := d(k - 1, h);
      if a.Done? then (h, out)
      else if a.ReadMem? then (h + [UncachedGet(Memory(mem), a.addr, a.buf)], out)
      else (h, out + [a])
  }

  /** The decoder has not finished before step k. */
  ghost predicate StillGoing(d: Strategy, mem: nat -> byte, k: nat)
    requires ReadsServable(d)
  {
    forall j :: 0 <= j < k ==> !d(j, Direct(d, mem, j).0).Done?
  }

  /** dec is what the decoders count when they read memory directly and finish. */
  ghost predicate Decodes(prog: Program, mem: nat -> byte, dec: Decoding)
    requires AllServable(prog)
  {
    forall t, k :: FinishesAt(prog(t), mem, k) ==> dec(t) == CountedBy(Direct(prog(t), mem, k).1)
  }

  ghost predicate FinishesAt(d: Strategy, mem: nat -> byte, k: nat) {
    ReadsServable(d) && StillGoing(d, mem, k) && d(k, Direct(d, mem, k).0).Done?
  }

  /** A decoder finishes once, so there is a dec that Decodes. */
  lemma FinishesOnce(d: Strategy, mem: nat -> byte, k: nat, l: nat)
    requires FinishesAt(d, mem, k) && FinishesAt(d, mem, l)
    ensures k == l
  {
  }

  /** The forward run is the direct play of the same number of steps. */
  lemma {:induction false} DirectIsPlayDirect(d: Strategy, mem: nat -> byte, k: nat, n: nat)
    requires ReadsServable(d) && StillGoing(d, mem, k + n)
    ensures Direct(d, mem, k + n).1 == Direct(d, mem, k).1 + PlayDirect(d, Memory(mem), Direct(d, mem, k).0, k, n)
    decreases n
  {
    hide UncachedGet, Memory;
    if n > 0 {
      DirectIsPlayDirect(d, mem, k + 1, n - 1);
      var (h, out) := Direct(d, mem, k);
      assert !d(k, h).Done?;
      if d(k, h).ReadMem? {
        ReadIsServable(d, k, h);
        PlayDirectStep(d, Memory(mem), h, k, n);
      } else {
        var rest := PlayDirect(d, Memory(mem), h, k + 1, n - 1);
        assert out + ([d(k, h)] + rest) == (out + [d(k, h)]) + rest;
      }
    }
  }

  // ---- Reads -------------------------------------------------------------------------------

  /** With all pages cached, a read is the direct read and leaves the cache as it was. */
  lemma HitsAreUncached(c: Cache, g: Reader, addr: nat, buf: Bytes)
    requires Sound(c, g) && RangeCoherent(g) && Servable(addr, |buf|) && Missing(c, addr, |buf|).None?
    ensures Get(c, addr, buf) == (c, UncachedGet(g, addr, buf))
  {
    hide PageOf, OffOf, Item, Uncached, RangeCoherent;
    if PageOf(addr) == PageOf(addr + |buf|) {
      WithinPage(addr, |buf|);
      PageReadIsUncached(g, addr, buf);
    } else {
      var n := FirstPart(addr, |buf|);
      NextPart(addr, |buf|);
      SecondPage(addr, |buf|);
      PageReadIsUncached(g, addr, buf[..n]);
      PageReadIsUncached(g, addr + n, buf[n..]);
    }
  }

  lemma SecondPage(addr: nat, len: nat)
    requires OffOf(addr) + len < 2 * PAGE_SIZE && PageOf(addr) != PageOf(addr + len)
    ensures PageOf(addr + len) == PageOf(addr) + PAGE_SIZE == PageOf(addr + FirstPart(addr, len))
  {
  }

  lemma MissingIsPage(c: Cache, addr: nat, len: nat)
    requires Servable(addr, len) && Missing(c, addr, len).Some?
    ensures IsPage(Missing(c, addr, len).value) && Missing(c, addr, len).value != 0
    ensures Missing(c, addr, len).value !in c.pages
  {
  }

  lemma LoadKeepsSound(c: Cache, mem: nat -> byte, p: nat, data: Bytes)
    requires Sound(c, Memory(mem)) && IsPage(p) && p != 0 && |data| == PAGE_SIZE && IsMemory(mem, p, data)
    ensures Sound(WithPage(c, p, data), Memory(mem))
  {
    MemoryIsRecalled(mem, p, data);
  }

  /** A page that has arrived is not missing any more, so a read asks for two pages at most. */
  lemma ReadAsksForTwoAtMost(c: Cache, addr: nat, len: nat, data: Bytes, data': Bytes)
    requires Servable(addr, len) && Missing(c, addr, len).Some?
    ensures var p := Missing(c, addr, len).value;
      var c1 := WithPage(c, p, data);
      && (p == PageOf(addr) || p == PageOf(addr + len))
      && Missing(c1, addr, len) != Some(p)
      && (Missing(c1, addr, len).Some? ==>
            Missing(WithPage(c1, Missing(c1, addr, len).value, data'), addr, len).None?)
  {
  }

  /** A read that misses a page is the read that finds it there: loading it first changes nothing. */
  lemma LoadThenRead(c: Cache, f: Reader, addr: nat, buf: Bytes)
    requires WellFormed(c) && c.lastPage == 0 && c.f == Some(f) && AlwaysFull(f) && Servable(addr, |buf|)
    requires Missing(c, addr, |buf|).Some?
    ensures var p := Missing(c, addr, |buf|).value;
      var c1 := WithPage(c, p, f(|c.log|, p, Zeros(PAGE_SIZE)).data);
      WellFormed(c1) && CanGet(c1, addr, |buf|) && Get(c, addr, buf) == Get(c1, addr, buf)
  {
    var p := Missing(c, addr, |buf|).value;
    assert f(|c.log|, p, Zeros(PAGE_SIZE)).count == PAGE_SIZE;
    hide PageOf, OffOf, Item, AlwaysFull;
    if PageOf(addr) == PageOf(addr + |buf|) {
      WithinPage(addr, |buf|);
    } else {
      NextPart(addr, |buf|);
      SecondPage(addr, |buf|);
    }
  }

  // ---- The invariant -------------------------------------------------------------------------

  /** The mind of a worker on task t is where direct decoding would be after as many steps. */
  ghost predicate Follows(d: Strategy, mem: nat -> byte, m: Mind) {
    ReadsServable(d) && StillGoing(d, mem, m.k) && (m.h, m.out) == Direct(d, mem, m.k)
  }

  ghost predicate MindOk(prog: Program, mem: nat -> byte, v: Worker, m: Mind) {
    && Sound(m.cache, Memory(mem))
    && (!v.Idle? ==> Follows(prog(v.task), mem, m))
    && (v.Waiting? ==> v.len == PAGE_SIZE && WaitsForRead(prog(v.task), m, v.addr))
  }

  /** p is the first page missing from the cache for the read the decoder wants to do. */
  ghost predicate WaitsForRead(d: Strategy, m: Mind, p: nat) {
    var a := d(m.k, m.h);
    a.ReadMem? && Servable(a.addr, |a.buf|) && Missing(m.cache, a.addr, |a.buf|) == Some(p)
  }

  ghost predicate MindsOk(prog: Program, mem: nat -> byte, x: Client) {
    |x.minds| == |x.sys.workers| && forall w :: 0 <= w < |x.minds| ==> MindOk(prog, mem, x.sys.workers[w], x.minds[w])
  }

  /** Every reply the server sent begins with the page it was asked for. */
  ghost predicate ServedIsMemory(mem: nat -> byte, s: Sys) {
    forall a, data :: (a, data) in s.served ==> |data| == REPLY_SIZE && IsMemory(mem, a, data[..PAGE_SIZE])
  }

  ghost predicate ClientInv(prog: Program, mem: nat -> byte, x: Client) {
    MindsOk(prog, mem, x) && ServedIsMemory(mem, x.sys) && Exact(x.sys)
  }

  // ---- Loops ----------------------------------------------------------------------------------

  /** The same job in the same place, whatever reply has come in. */
  predicate SameJob(v: Worker, u: Worker) {
    && v.Idle? == u.Idle? && v.Busy? == u.Busy?
    && (!v.Idle? ==> v.task == u.task)
    && (v.Waiting? ==> v.addr == u.addr && v.len == u.len)
  }

  lemma LoopsKeepJobs(dec: Decoding, s: Sys, e: Event)
    requires Next(dec, s, e).Some? && IsLoopEvent(e)
    ensures var r := Next(dec, s, e).value;
      |r.workers| == |s.workers| && forall w :: 0 <= w < |s.workers| ==> SameJob(r.workers[w], s.workers[w])
  {
    hide CountMaps.Merge, CountMaps.AddIps, SparseMaps.Densify, SparseMaps.SparseOf, Receiver, ClientMemStep;
    if e.ClientMem? {
      DeliveryKeepsJobs(s);
    }
  }

  lemma DeliveryKeepsJobs(s: Sys)
    requires ClientMemStep(s).Some?
    ensures var r := ClientMemStep(s).value;
      |r.workers| == |s.workers| && forall w :: 0 <= w < |s.workers| ==> SameJob(r.workers[w], s.workers[w])
  {
    hide Receiver;
  }

  lemma LoopsServe(dec: Decoding, s: Sys, e: Event)
    requires Next(dec, s, e).Some? && IsLoopEvent(e)
    ensures e.ServerMem? ==>
      && s.up != [] && s.up[0].MemReq? && |e.memory| == REPLY_SIZE
      && Next(dec, s, e).value.served == s.served + {(s.up[0].addr, e.memory)}
    ensures !e.ServerMem? ==> Next(dec, s, e).value.served == s.served
  {
    hide CountMaps.Merge, CountMaps.AddIps, SparseMaps.Densify, SparseMaps.SparseOf, Receiver;
  }

  /** Only the sending of a result looks at what a task decodes to. */
  lemma LoopsIgnoreDecoding(d1: Decoding, d2: Decoding, s: Sys, e: Event)
    requires IsLoopEvent(e)
    ensures Next(d1, s, e) == Next(d2, s, e)
  {
    hide CountMaps.Merge, CountMaps.AddIps, SparseMaps.Densify, SparseMaps.SparseOf, Receiver;
  }

  lemma LoopKeeps(prog: Program, mem: nat -> byte, dec: Decoding, x: Client, e: Event)
    requires ClientInv(prog, mem, x) && LoopMove(x, e).Some? && GoodMove(prog, mem, x, Loops(e))
    ensures ClientInv(prog, mem, LoopMove(x, e).value)
    ensures Next(dec, x.sys, e) == Some(LoopMove(x, e).value.sys)
  {
    hide Next, Exact, Sound, Follows, IsMemory;
    var r := LoopMove(x, e).value;
    LoopsIgnoreDecoding(t => [], dec, x.sys, e);
    LoopsKeepJobs(dec, x.sys, e);
    LoopsServe(dec, x.sys, e);
    StepExact(dec, x.sys, e);
    forall w | 0 <= w < |r.minds| ensures MindOk(prog, mem, r.sys.workers[w], r.minds[w]) {
      assert MindOk(prog, mem, x.sys.workers[w], x.minds[w]) && SameJob(r.sys.workers[w], x.sys.workers[w]);
    }
  }

  // ---- Workers ----------------------------------------------------------------------------------

  /** One mind and one worker change. */
  lemma OneMind(prog: Program, mem: nat -> byte, x: Client, r: Client, w: nat)
    requires MindsOk(prog, mem, x) && w < |x.minds|
    requires |r.minds| == |x.minds| && |r.sys.workers| == |x.sys.workers|
    requires r.minds == x.minds[w := r.minds[w]] && r.sys.workers == x.sys.workers[w := r.sys.workers[w]]
    requires MindOk(prog, mem, r.sys.workers[w], r.minds[w])
    ensures MindsOk(prog, mem, r)
  {
    hide MindOk;
    forall v | 0 <= v < |r.minds| ensures MindOk(prog, mem, r.sys.workers[v], r.minds[v]) {
      if v != w {
        assert r.minds[v] == x.minds[v] && r.sys.workers[v] == x.sys.workers[v];
      }
    }
  }

  lemma TakeKeeps(prog: Program, mem: nat -> byte, dec: Decoding, x: Client, w: nat)
    requires AllServable(prog) && ClientInv(prog, mem, x) && TakeMove(x, w).Some?
    ensures ClientInv(prog, mem, TakeMove(x, w).value)
    ensures Next(dec, x.sys, Take(w)) == Some(TakeMove(x, w).value.sys)
  {
    hide Exact, Sound, ReadsServable;
    var r := TakeMove(x, w).value;
    StepExact(dec, x.sys, Take(w));
    assert MindOk(prog, mem, x.sys.workers[w], x.minds[w]);
    OneMind(prog, mem, x, r, w);
  }

  /** One more step of direct decoding. */
  lemma DirectNext(d: Strategy, mem: nat -> byte, m: Mind)
    requires Follows(d, mem, m) && !d(m.k, m.h).Done?
    ensures d(m.k, m.h).ReadMem? ==> Servable(d(m.k, m.h).addr, |d(m.k, m.h).buf|)
    ensures d(m.k, m.h).ReadMem? ==>
      var r := UncachedGet(Memory(mem), d(m.k, m.h).addr, d(m.k, m.h).buf);
      Follows(d, mem, m.(h := m.h + [r], k := m.k + 1))
    ensures !d(m.k, m.h).ReadMem? ==> Follows(d, mem, m.(k := m.k + 1, out := m.out + [d(m.k, m.h)]))
  {
    hide UncachedGet, Memory;
  }

  lemma ThinkKeeps(prog: Program, mem: nat -> byte, x: Client, w: nat)
    requires ClientInv(prog, mem, x) && ThinkMove(prog, x, w).Some?
    ensures ClientInv(prog, mem, ThinkMove(prog, x, w).value)
    ensures ThinkMove(prog, x, w).value.sys == x.sys
  {
    hide Exact, Sound, Follows, Get, WellFormed, CanGet, Memory, UncachedGet, Missing;
    var r, m, a := ThinkMove(prog, x, w).value, x.minds[w], ActionOf(prog, x, w);
    assert MindOk(prog, mem, x.sys.workers[w], m);
    DirectNext(prog(x.sys.workers[w].task), mem, m);
    if a.ReadMem? {
      MemoryIsGood(mem);
      hide RangeCoherent, Steady, Faithful;
      HitsAreUncached(m.cache, Memory(mem), a.addr, a.buf);
    }
    OneMind(prog, mem, x, r, w);
  }

  lemma AskKeeps(prog: Program, mem: nat -> byte, dec: Decoding, x: Client, w: nat)
    requires ClientInv(prog, mem, x) && AskMove(prog, x, w).Some? && GoodMove(prog, mem, x, AskPage(w))
    ensures ClientInv(prog, mem, AskMove(prog, x, w).value)
    ensures exists p :: Next(dec, x.sys, AskMem(w, p, PAGE_SIZE)) == Some(AskMove(prog, x, w).value.sys)
  {
    hide Exact, Sound, Follows, Missing, NobodyWaits, IsPage;
    var r, m, a := AskMove(prog, x, w).value, x.minds[w], ActionOf(prog, x, w);
    var p := Missing(m.cache, a.addr, |a.buf|).value;
    assert MindOk(prog, mem, x.sys.workers[w], m);
    DirectNext(prog(x.sys.workers[w].task), mem, m);
    MissingIsPage(m.cache, a.addr, |a.buf|);
    assert Next(dec, x.sys, AskMem(w, p, PAGE_SIZE)) == Some(r.sys);
    StepExact(dec, x.sys, AskMem(w, p, PAGE_SIZE));
    OneMind(prog, mem, x, r, w);
  }

  /** A worker that wakes holds the page it asked for. */
  lemma WakesWithMemory(mem: nat -> byte, s: Sys, w: nat)
    requires Exact(s) && ServedIsMemory(mem, s) && WakeStep(s, w).Some?
    ensures var page := RemoteRead(s.workers[w].reply, Zeros(PAGE_SIZE)).data;
      |page| == PAGE_SIZE && IsMemory(mem, s.workers[w].addr, page)
  {
    WakeHasData(s, w);
    RoutedReply(s, w);
  }

  lemma RoutedReply(s: Sys, w: nat)
    requires Routed(s) && w < |s.workers| && s.workers[w].Waiting? && s.workers[w].reply.Some?
    ensures (s.workers[w].addr, s.workers[w].reply.value) in s.served
  {
  }

  lemma ReceiveKeeps(prog: Program, mem: nat -> byte, dec: Decoding, x: Client, w: nat)
    requires ClientInv(prog, mem, x) && ReceiveMove(x, w).Some?
    ensures ClientInv(prog, mem, ReceiveMove(x, w).value)
    ensures Next(dec, x.sys, Wake(w)) == Some(ReceiveMove(x, w).value.sys)
  {
    hide Exact, Sound, SenderAlive, Memory, RemoteRead, WithPage, IsPage, IsMemory, Missing;
    var r, m, v := ReceiveMove(x, w).value, x.minds[w], x.sys.workers[w];
    assert MindOk(prog, mem, v, m);
    MissingIsPage(m.cache, prog(v.task)(m.k, m.h).addr, |prog(v.task)(m.k, m.h).buf|);
    WakesWithMemory(mem, x.sys, w);
    LoadKeepsSound(m.cache, mem, v.addr, RemoteRead(v.reply, Zeros(PAGE_SIZE)).data);
    StepExact(dec, x.sys, Wake(w));
    OneMind(prog, mem, x, r, w);
  }

  /** The result a worker sends is the fixed one. */
  lemma ResultIsFixed(prog: Program, mem: nat -> byte, dec: Decoding, x: Client, w: nat)
    requires AllServable(prog) && Decodes(prog, mem, dec) && ClientInv(prog, mem, x)
    requires IsBusy(x, w) && ActionOf(prog, x, w).Done?
    ensures CountedBy(x.minds[w].out) == dec(x.sys.workers[w].task)
  {
    hide Exact, Sound, CountedBy, ReadsServable;
    assert MindOk(prog, mem, x.sys.workers[w], x.minds[w]);
    assert FinishesAt(prog(x.sys.workers[w].task), mem, x.minds[w].k);
  }

  /**
   * The message a worker sends. When its decoder's answers are those a machine gives to
   * the task, it is the response of ProcTask: every instruction after the first
   * synchronisation, counted once.
   */
  lemma WorkerSendsWhatWasDecoded<S(!new)>(prog: Program, x: Client, w: nat, m: Machine<S>, s: S,
                                           nexts: seq<Answer>, syncs: seq<bool>)
    requires SendMove(prog, x, w).Some? && Advances(m) && x.minds[w].out == TaskAnswers(m, s)
    ensures SendMove(prog, x, w).value.sys.up
         == x.sys.up + [DataRsp(SparseMaps.SparseOf(AddIps(map[], CountedTask(m, s))))]
    ensures m.sync(s).0 && Gives(m, m.sync(s).1, nexts, syncs) ==> CountedTask(m, s) == InsOf(nexts)
    ensures !m.sync(s).0 ==> CountedTask(m, s) == []
  {
    hide Advances, CountedBy, TaskAnswers, CountedTask, AddIps, SparseMaps.SparseOf;
    CountedByIsCountedTask(m, s, nexts, syncs);
    TaskCountsItsInstructions(m, s, nexts, syncs);
  }

  lemma SendKeeps(prog: Program, mem: nat -> byte, dec: Decoding, x: Client, w: nat)
    requires AllServable(prog) && Decodes(prog, mem, dec) && ClientInv(prog, mem, x) && SendMove(prog, x, w).Some?
    ensures ClientInv(prog, mem, SendMove(prog, x, w).value)
    ensures Next(dec, x.sys, Finish(w)) == Some(SendMove(prog, x, w).value.sys)
  {
    hide Exact, Sound, Follows, CountedBy, Decodes, AllServable, CountMaps.AddIps, SparseMaps.SparseOf;
    var r := SendMove(prog, x, w).value;
    ResultIsFixed(prog, mem, dec, x, w);
    StepExact(dec, x.sys, Finish(w));
    assert MindOk(prog, mem, x.sys.workers[w], x.minds[w]);
    OneMind(prog, mem, x, r, w);
  }

  /** Every good move keeps the invariant, and is a step of the protocol or none at all. */
  lemma MoveRefines(prog: Program, mem: nat -> byte, dec: Decoding, x: Client, m: Move)
    requires AllServable(prog) && Decodes(prog, mem, dec) && ClientInv(prog, mem, x)
    requires MoveOf(prog, x, m).Some? && GoodMove(prog, mem, x, m)
    ensures ClientInv(prog, mem, MoveOf(prog, x, m).value)
    ensures var s := MoveOf(prog, x, m).value.sys;
      s == x.sys || exists e :: Next(dec, x.sys, e) == Some(s)
  {
    hide Next, ClientInv, AllServable, Decodes, GoodMove;
    match m
    case Loops(e) => LoopKeeps(prog, mem, dec, x, e);
    case TakeTask(w) => TakeKeeps(prog, mem, dec, x, w);
    case Think(w) => ThinkKeeps(prog, mem, x, w);
    case AskPage(w) => AskKeeps(prog, mem, dec, x, w);
    case Receive(w) => ReceiveKeeps(prog, mem, dec, x, w);
    case SendResult(w) => SendKeeps(prog, mem, dec, x, w);
  }

  // ---- Runs ----------------------------------------------------------------------------------------

  lemma InitClientInv(prog: Program, mem: nat -> byte, n: nat)
    ensures ClientInv(prog, mem, InitClient(n))
  {
    InitExact(n);
    hide Exact;
    EmptyIsSound(Memory(mem));
  }

  lemma {:induction false} GoodRunRefines(prog: Program, mem: nat -> byte, dec: Decoding, n: nat,
                                           from: Client, ms: seq<Move>, x: Client)
    requires AllServable(prog) && Decodes(prog, mem, dec) && GoodRun(prog, mem, from, ms, x)
    requires ClientInv(prog, mem, from) && Reachable(dec, n, from.sys)
    ensures ClientInv(prog, mem, x) && Reachable(dec, n, x.sys)
    decreases |ms|
  {
    hide Next, ClientInv, AllServable, Decodes, GoodMove, MoveOf, Reachable;
    if ms != [] {
      MoveRefines(prog, mem, dec, from, ms[0]);
      var to := MoveOf(prog, from, ms[0]).value;
      if to.sys != from.sys {
        var e :| Next(dec, from.sys, e) == Some(to.sys);
        ReachableNext(dec, n, from.sys, e);
      }
      GoodRunRefines(prog, mem, dec, n, to, ms[1..], x);
    }
  }

  /**
   * Refinement: a client whose workers really decode, in any good run, is in a reachable
   * state of the protocol in which the result of a task is fixed.
   */
  lemma DecodingRefinesProtocol(prog: Program, mem: nat -> byte, dec: Decoding, n: nat, ms: seq<Move>, x: Client)
    requires AllServable(prog) && Decodes(prog, mem, dec) && GoodRun(prog, mem, InitClient(n), ms, x)
    ensures Reachable(dec, n, x.sys)
  {
    hide ClientInv, AllServable, Decodes, GoodRun;
    InitClientInv(prog, mem, n);
    ReachableInit(dec, n);
    GoodRunRefines(prog, mem, dec, n, InitClient(n), ms, x);
  }

  /**
   * So two good, drained runs over the same tasks give the same map, with any numbers of
   * workers, any interleaving, and whatever each worker's cache held before.
   */
  lemma DecodingConfluence(prog: Program, mem: nat -> byte, dec: Decoding,
                           n1: nat, ms1: seq<Move>, x1: Client, n2: nat, ms2: seq<Move>, x2: Client)
    requires AllServable(prog) && Decodes(prog, mem, dec)
    requires GoodRun(prog, mem, InitClient(n1), ms1, x1) && Drained(x1.sys)
    requires GoodRun(prog, mem, InitClient(n2), ms2, x2) && Drained(x2.sys)
    requires multiset(x1.sys.published) == multiset(x2.sys.published)
    ensures Merge(x1.sys.got, x1.sys.rst) == Merge(x2.sys.got, x2.sys.rst)
  {
    hide Reachable, AllServable, Decodes, GoodRun, Drained;
    DecodingRefinesProtocol(prog, mem, dec, n1, ms1, x1);
    DecodingRefinesProtocol(prog, mem, dec, n2, ms2, x2);
    Confluence(dec, n1, x1.sys, n2, x2.sys);
  }
}

// The local pipeline from rings to merged counts, as a step system: the poll loop
// fetches bytes of each processor's stream and hands them to that processor's
// splitter; splitters send tasks into one shared queue; workers take tasks and count
// into maps of their own. At quiescence the merged map depends on the streams only.
module LocalPipeline {
  import opened Basics
  import opened Bags
  import opened CountMaps
  import opened PsbScanner
  import opened Splitter
  import opened ClientProtocol
  import opened TaskConservation
  import opened PoolConservation
  import opened SentinelRing

  // ---- The splitter's two functions for the PSB scanner -----------------------------

  /** The tasks of a stream: what lies between consecutive PSBs. */
  ghost function PsbTasks(s: Bytes): seq<Task> {
    PsbScanIsResumable();
    Tasks(PsbScan(), s)
  }

  ghost function PsbKept(s: Bytes): Bytes {
    PsbScanIsResumable();
    Kept(PsbScan(), s)
  }

  lemma PsbChunk(s: Bytes, d: Bytes)
    ensures PsbTasks(s + d) == PsbTasks(s) + PsbTasks(PsbKept(s) + d)
    ensures PsbKept(s + d) == PsbKept(PsbKept(s) + d)
  {
    PsbScanIsResumable();
    ChunkStep(PsbScan(), s, d);
  }

  lemma PsbOfNothing()
    ensures PsbTasks([]) == [] && PsbKept([]) == []
  {
    PsbScanIsResumable();
    NothingYet(PsbScan());
  }

  // ---- State and steps ----------------------------------------------------------------

  datatype Cpu = Cpu(
    stream: Bytes,          // everything the processor ever produces
    fetched: nat,           // how much of it the poll loop has handed on
    channel: seq<Bytes>,    // chunks on their way to the splitter
    received: Bytes,        // history: what the splitter has appended so far
    assembled: Bytes,       // the splitter's buffer
    outbox: seq<Task>)      // segments the splitter is still sending

  datatype LocalWorker = LocalWorker(task: Option<Task>, data: Dense)

  datatype Local = Local(
    cpus: seq<Cpu>,
    queue: seq<Task>,
    workers: seq<LocalWorker>,
    done: multiset<Task>)   // history

  datatype LocalEvent =
    | FetchBytes(cpu: nat, n: nat)
    | Split(cpu: nat)
    | SendSegment(cpu: nat)
    | TakeTask(worker: nat)
    | DecodeTask(worker: nat)

  function InitCpu(stream: Bytes): Cpu { Cpu(stream, 0, [], [], [], []) }

  function InitCpus(streams: seq<Bytes>): seq<Cpu> {
    if streams == [] then [] else [InitCpu(streams[0])] + InitCpus(streams[1..])
  }

  function InitLocal(streams: seq<Bytes>, workers: nat): Local {
    Local(InitCpus(streams), [], seq(workers, i => LocalWorker(None, map[])), multiset{})
  }

  /** One fetch that returned n bytes; only a non-empty one is handed on. */
  function FetchBytesStep(c: Cpu, n: nat): Option<Cpu> {
    if 0 < n && c.fetched + n <= |c.stream| then
      Some(c.(fetched := c.fetched + n, channel := c.channel + [c.stream[c.fetched..c.fetched + n]]))
    else None
  }

  /** The splitter takes a chunk, rescans its buffer and cuts it at the offsets found. */
  ghost function SplitStep(c: Cpu): Option<Cpu> {
    if c.channel != [] && c.outbox == [] then
      var b := c.assembled + c.channel[0];
      Some(c.(channel := c.channel[1..], received := c.received + c.channel[0],
              assembled := PsbKept(b), outbox := PsbTasks(b)))
    else None
  }

  function TakeTaskStep(s: Local, w: nat): Option<Local> {
    if w < |s.workers| && s.workers[w].task.None? && s.queue != [] then
      Some(s.(queue := s.queue[1..], workers := s.workers[w := s.workers[w].(task := Some(s.queue[0]))]))
    else None
  }

  function DecodeTaskStep(dec: Decoding, s: Local, w: nat): Option<Local> {
    if w < |s.workers| && s.workers[w].task.Some? then
      var task := s.workers[w].task.value;
      Some(s.(workers := s.workers[w := LocalWorker(None, AddIps(s.workers[w].data, dec(task)))],
              done := s.done + multiset{task}))
    else None
  }

  function SendSegmentStep(s: Local, i: nat): Option<Local> {
    if i < |s.cpus| && s.cpus[i].outbox != [] then
      Some(s.(cpus := s.cpus[i := s.cpus[i].(outbox := s.cpus[i].outbox[1..])],
              queue := s.queue + [s.cpus[i].outbox[0]]))
    else None
  }

  /** A step of one processor's part that touches nothing else. */
  ghost function CpuStep(s: Local, i: nat, r: Option<Cpu>): Option<Local>
    requires i < |s.cpus|
  {
    if r.None? then None else Some(s.(cpus := s.cpus[i := r.value]))
  }

  ghost function LocalNext(dec: Decoding, s: Local, e: LocalEvent): Option<Local> {
    match e
    case FetchBytes(i, n) => if i < |s.cpus| then CpuStep(s, i, FetchBytesStep(s.cpus[i], n)) else None
    case Split(i) => if i < |s.cpus| then CpuStep(s, i, SplitStep(s.cpus[i])) else None
    case SendSegment(i) => SendSegmentStep(s, i)
    case TakeTask(w) => TakeTaskStep(s, w)
    case DecodeTask(w) => DecodeTaskStep(dec, s, w)
  }

  ghost function LocalRun(dec: Decoding, s: Local, es: seq<LocalEvent>): Option<Local>
    decreases |es|
  {
    if es == [] then Some(s) else
      var r := LocalNext(dec, s, es[0]);
      if r.None? then None else LocalRun(dec, r.value, es[1..])
  }

  ghost predicate LocalReachable(dec: Decoding, streams: seq<Bytes>, workers: nat, s: Local) {
    exists es :: LocalRun(dec, InitLocal(streams, workers), es) == Some(s)
  }

  // ---- What the poll loop hands over is such fetches ------------------------------------

  /** The poll loop's chunks for one processor, in order; empty ones are not handed on. */
  function FetchChunks(c: Cpu, chunks: seq<Bytes>): Option<Cpu> {
    if chunks == [] then Some(c) else
      var r := FetchChunks(c, chunks[..|chunks| - 1]);
      var chunk := chunks[|chunks| - 1];
      if r.None? || chunk == [] then r else FetchBytesStep(r.value, |chunk|)
  }

  function NonEmpty(chunks: seq<Bytes>): seq<Bytes> {
    if chunks == [] then [] else
      NonEmpty(chunks[..|chunks| - 1]) + if chunks[|chunks| - 1] == [] then [] else [chunks[|chunks| - 1]]
  }

  /**
   * Whatever chunks the poll loop hands over of a ring, they are fetches of this model:
   * each is enabled, and the splitter's channel receives exactly the non-empty ones.
   */
  lemma {:induction false} HandedChunksAreFetches(stream: nat -> byte, consumed: nat, total: nat, chunks: seq<Bytes>)
    requires consumed <= total && Handed(chunks) == Slice(stream, 0, consumed)
    ensures FetchChunks(InitCpu(Slice(stream, 0, total)), chunks)
         == Some(InitCpu(Slice(stream, 0, total)).(fetched := consumed, channel := NonEmpty(chunks)))
  {
    if chunks == [] {
      assert consumed == |Handed([])| == 0;
    } else {
      var init, chunk := chunks[..|chunks| - 1], chunks[|chunks| - 1];
      var k := |Handed(init)|;
      assert Handed(init) == Slice(stream, 0, consumed)[..k] == Slice(stream, 0, k);
      HandedChunksAreFetches(stream, k, total, init);
      assert consumed == k + |chunk|;
      assert chunk == Slice(stream, 0, total)[k..consumed];
      assert chunk == [] ==> NonEmpty(chunks) == NonEmpty(init);
    }
  }

  lemma {:induction false} LocalRunOneMore(dec: Decoding, s: Local, es: seq<LocalEvent>, e: LocalEvent)
    requires LocalRun(dec, s, es).Some? && LocalNext(dec, LocalRun(dec, s, es).value, e).Some?
    ensures LocalRun(dec, s, es + [e]) == LocalNext(dec, LocalRun(dec, s, es).value, e)
    decreases |es|
  {
    hide LocalNext;
    if es == [] {
      assert es + [e] == [e] && [e][1..] == [];
    } else {
      assert (es + [e])[1..] == es[1..] + [e];
      LocalRunOneMore(dec, LocalNext(dec, s, es[0]).value, es[1..], e);
    }
  }

  lemma ReachableNext(dec: Decoding, streams: seq<Bytes>, workers: nat, s: Local, e: LocalEvent)
    requires LocalReachable(dec, streams, workers, s) && LocalNext(dec, s, e).Some?
    ensures LocalReachable(dec, streams, workers, LocalNext(dec, s, e).value)
  {
    hide LocalNext;
    var es :| LocalRun(dec, InitLocal(streams, workers), es) == Some(s);
    LocalRunOneMore(dec, InitLocal(streams, workers), es, e);
  }

  /** Handing one processor's chunks on is a run. */
  lemma {:induction false} ChunksReach(dec: Decoding, streams: seq<Bytes>, workers: nat, s: Local, i: nat,
                                       chunks: seq<Bytes>)
    requires LocalReachable(dec, streams, workers, s) && i < |s.cpus| && FetchChunks(s.cpus[i], chunks).Some?
    ensures LocalReachable(dec, streams, workers, s.(cpus := s.cpus[i := FetchChunks(s.cpus[i], chunks).value]))
  {
    hide LocalReachable;
    if chunks == [] {
      assert s.cpus[i := s.cpus[i]] == s.cpus;
    } else {
      var init, chunk := chunks[..|chunks| - 1], chunks[|chunks| - 1];
      ChunksReach(dec, streams, workers, s, i, init);
      if chunk != [] {
        var t := s.(cpus := s.cpus[i := FetchChunks(s.cpus[i], init).value]);
        var c := FetchChunks(s.cpus[i], chunks).value;
        assert LocalNext(dec, t, FetchBytes(i, |chunk|)) == Some(s.(cpus := s.cpus[i := c])) by {
          assert t.cpus[i := c] == s.cpus[i := c];
        }
        ReachableNext(dec, streams, workers, t, FetchBytes(i, |chunk|));
      }
    }
  }

  /** What each processor's stream is, when it has produced totals[i] bytes. */
  ghost function Produced(streams: seq<nat -> byte>, totals: seq<nat>): seq<Bytes>
    requires |streams| == |totals|
  {
    seq(|streams|, i requires 0 <= i < |streams| => Slice(streams[i], 0, totals[i]))
  }

  lemma {:induction false} InitCpusAt(streams: seq<Bytes>, i: nat)
    requires i < |streams|
    ensures |InitCpus(streams)| == |streams| && InitCpus(streams)[i] == InitCpu(streams[i])
  {
    if i > 0 {
      InitCpusAt(streams[1..], i - 1);
    } else {
      InitCpusSize(streams);
    }
  }

  lemma {:induction false} InitCpusSize(streams: seq<Bytes>)
    ensures |InitCpus(streams)| == |streams|
  {
    if streams != [] {
      InitCpusSize(streams[1..]);
    }
  }

  /** The processors after the poll loop has handed the chunks of the first n on. */
  ghost function HandedOn(all: seq<Bytes>, consumed: seq<nat>, chunks: seq<seq<Bytes>>, n: nat): seq<Cpu>
    requires |all| == |consumed| == |chunks|
  {
    seq(|all|, i requires 0 <= i < |all| =>
      if i < n then InitCpu(all[i]).(fetched := consumed[i], channel := NonEmpty(chunks[i])) else InitCpu(all[i]))
  }

  lemma {:induction false} HandedOnReachable(dec: Decoding, workers: nat, streams: seq<nat -> byte>, totals: seq<nat>,
                                              consumed: seq<nat>, chunks: seq<seq<Bytes>>, n: nat)
    requires n <= |streams| == |totals| == |consumed| == |chunks|
    requires forall i :: 0 <= i < |streams| ==>
      consumed[i] <= totals[i] && Handed(chunks[i]) == Slice(streams[i], 0, consumed[i])
    ensures var all := Produced(streams, totals);
      LocalReachable(dec, all, workers, InitLocal(all, workers).(cpus := HandedOn(all, consumed, chunks, n)))
    decreases n
  {
    hide LocalReachable, Handed, Slice;
    var all := Produced(streams, totals);
    var start := InitLocal(all, workers);
    if n == 0 {
      InitCpusSize(all);
      forall i | 0 <= i < |all| ensures InitCpus(all)[i] == InitCpu(all[i]) {
        InitCpusAt(all, i);
      }
      assert InitCpus(all) == HandedOn(all, consumed, chunks, 0);
      InitReachable(dec, all, workers);
    } else {
      HandedOnReachable(dec, workers, streams, totals, consumed, chunks, n - 1);
      var s := start.(cpus := HandedOn(all, consumed, chunks, n - 1));
      HandedChunksAreFetches(streams[n - 1], consumed[n - 1], totals[n - 1], chunks[n - 1]);
      ChunksReach(dec, all, workers, s, n - 1, chunks[n - 1]);
      var c := FetchChunks(s.cpus[n - 1], chunks[n - 1]).value;
      assert s.cpus[n - 1 := c] == HandedOn(all, consumed, chunks, n);
    }
  }

  lemma InitReachable(dec: Decoding, streams: seq<Bytes>, workers: nat)
    ensures LocalReachable(dec, streams, workers, InitLocal(streams, workers))
  {
    assert LocalRun(dec, InitLocal(streams, workers), []) == Some(InitLocal(streams, workers));
  }

  /**
   * Whatever the poll loop has handed over of all its rings is a reachable state of the
   * pipeline: every ring is fetched up to what it consumed, and each splitter's channel
   * holds the non-empty chunks.
   */
  lemma PolledIsReachable(dec: Decoding, workers: nat, streams: seq<nat -> byte>, totals: seq<nat>,
                          consumed: seq<nat>, chunks: seq<seq<Bytes>>)
    requires |streams| == |totals| == |consumed| == |chunks|
    requires forall i :: 0 <= i < |streams| ==>
      consumed[i] <= totals[i] && Handed(chunks[i]) == Slice(streams[i], 0, consumed[i])
    ensures var all := Produced(streams, totals);
      LocalReachable(dec, all, workers, InitLocal(all, workers).(cpus := HandedOn(all, consumed, chunks, |streams|)))
  {
    HandedOnReachable(dec, workers, streams, totals, consumed, chunks, |streams|);
  }

  // ---- Each processor's bytes -----------------------------------------------------------

  /** What was received and what is in the channel is what was fetched; the buffer is what should be kept. */
  ghost predicate CpuOk(c: Cpu) {
    && c.fetched <= |c.stream|
    && c.received + Flat(c.channel) == c.stream[..c.fetched]
    && c.assembled == PsbKept(c.received)
  }

  function Flat(chunks: seq<Bytes>): Bytes {
    if chunks == [] then [] else chunks[0] + Flat(chunks[1..])
  }

  lemma {:induction false} FlatSnoc(chunks: seq<Bytes>, d: Bytes)
    ensures Flat(chunks + [d]) == Flat(chunks) + d
  {
    if chunks == [] {
      assert [d][1..] == [];
      assert Flat([d]) == d + Flat([]);
    } else {
      assert (chunks + [d])[1..] == chunks[1..] + [d];
      FlatSnoc(chunks[1..], d);
    }
  }

  lemma FetchKeepsCpu(c: Cpu, n: nat)
    requires CpuOk(c) && FetchBytesStep(c, n).Some?
    ensures CpuOk(FetchBytesStep(c, n).value)
  {
    hide PsbKept;
    var d := c.stream[c.fetched..c.fetched + n];
    FlatSnoc(c.channel, d);
    assert c.stream[..c.fetched + n] == c.stream[..c.fetched] + d;
  }

  lemma SplitKeepsCpu(c: Cpu)
    requires CpuOk(c) && SplitStep(c).Some?
    ensures CpuOk(SplitStep(c).value)
    ensures PsbTasks(SplitStep(c).value.received) == PsbTasks(c.received) + SplitStep(c).value.outbox
  {
    hide PsbKept, PsbTasks;
    PsbChunk(c.received, c.channel[0]);
    assert Flat(c.channel) == c.channel[0] + Flat(c.channel[1..]);
    assert c.received + Flat(c.channel) == c.received + c.channel[0] + Flat(c.channel[1..]);
  }

  // ---- Tasks and counts ---------------------------------------------------------------------

  ghost function Emitted(c: Cpu): multiset<Task> { multiset(PsbTasks(c.received)) }

  ghost function Outgoing(c: Cpu): multiset<Task> { multiset(c.outbox) }

  function HeldTask(w: LocalWorker): multiset<Task> {
    if w.task.None? then multiset{} else multiset{w.task.value}
  }

  ghost function Counted(w: LocalWorker): multiset<Loc> { Meaning(w.data) }

  /** Tasks found so far, minus the places holding them. */
  ghost function LocalBalance(s: Local, t: Task): int {
    Sum(s.cpus, Emitted)[t] as int
      - (Sum(s.cpus, Outgoing)[t] + multiset(s.queue)[t] + Sum(s.workers, HeldTask)[t] + s.done[t]) as int
  }

  ghost predicate DataOk(w: LocalWorker) { Canonical(w.data) && Aligned(w.data) }

  ghost predicate LocalInv(dec: Decoding, s: Local) {
    && (forall i :: 0 <= i < |s.cpus| ==> CpuOk(s.cpus[i]))
    && (forall i :: 0 <= i < |s.workers| ==> DataOk(s.workers[i]))
    && (forall t :: LocalBalance(s, t) == 0)
    && Sum(s.workers, Counted) == Weight(s.done, TaskBag(dec))
  }

  lemma FetchTasks(s: Local, i: nat, n: nat, t: Task)
    requires i < |s.cpus| && FetchBytesStep(s.cpus[i], n).Some?
    ensures LocalBalance(CpuStep(s, i, FetchBytesStep(s.cpus[i], n)).value, t) == LocalBalance(s, t)
  {
    hide Sum, PsbTasks;
    SumUpdateAt(s.cpus, i, FetchBytesStep(s.cpus[i], n).value, Emitted, t);
    SumUpdateAt(s.cpus, i, FetchBytesStep(s.cpus[i], n).value, Outgoing, t);
  }

  lemma SplitTasks(s: Local, i: nat, t: Task)
    requires i < |s.cpus| && CpuOk(s.cpus[i]) && SplitStep(s.cpus[i]).Some?
    ensures LocalBalance(CpuStep(s, i, SplitStep(s.cpus[i])).value, t) == LocalBalance(s, t)
  {
    hide Sum, PsbTasks, PsbKept;
    var c := SplitStep(s.cpus[i]).value;
    SplitKeepsCpu(s.cpus[i]);
    assert Emitted(c) == Emitted(s.cpus[i]) + Outgoing(c) && Outgoing(s.cpus[i]) == multiset{};
    SumUpdateAt(s.cpus, i, c, Emitted, t);
    SumUpdateAt(s.cpus, i, c, Outgoing, t);
  }

  lemma SendTasks(s: Local, i: nat, t: Task)
    requires SendSegmentStep(s, i).Some?
    ensures LocalBalance(SendSegmentStep(s, i).value, t) == LocalBalance(s, t)
  {
    hide Sum, PsbTasks;
    var c, x := s.cpus[i].(outbox := s.cpus[i].outbox[1..]), s.cpus[i].outbox[0];
    SumUpdateAt(s.cpus, i, c, Emitted, t);
    SumUpdateAt(s.cpus, i, c, Outgoing, t);
    PopAt(s.cpus[i].outbox, t);
    assert multiset(s.queue + [x]) == multiset(s.queue) + multiset{x};
  }

  lemma TakeTasks(s: Local, w: nat, t: Task)
    requires TakeTaskStep(s, w).Some?
    ensures LocalBalance(TakeTaskStep(s, w).value, t) == LocalBalance(s, t)
  {
    hide Sum;
    PopAt(s.queue, t);
    SumUpdateAt(s.workers, w, s.workers[w].(task := Some(s.queue[0])), HeldTask, t);
  }

  lemma DecodeTasks(dec: Decoding, s: Local, w: nat, t: Task)
    requires DecodeTaskStep(dec, s, w).Some?
    ensures LocalBalance(DecodeTaskStep(dec, s, w).value, t) == LocalBalance(s, t)
  {
    hide Sum, AddIps;
    SumUpdateAt(s.workers, w, DecodeTaskStep(dec, s, w).value.workers[w], HeldTask, t);
  }

  lemma TasksStep(dec: Decoding, s: Local, e: LocalEvent, t: Task)
    requires LocalInv(dec, s) && LocalNext(dec, s, e).Some?
    ensures LocalBalance(LocalNext(dec, s, e).value, t) == LocalBalance(s, t)
  {
    hide LocalBalance, CpuOk, SendSegmentStep, TakeTaskStep, DecodeTaskStep, SplitStep, FetchBytesStep;
    match e
    case FetchBytes(i, n) => FetchTasks(s, i, n, t);
    case Split(i) => SplitTasks(s, i, t);
    case SendSegment(i) => SendTasks(s, i, t);
    case TakeTask(w) => TakeTasks(s, w, t);
    case DecodeTask(w) => DecodeTasks(dec, s, w, t);
  }

  /** Taking a task counts nothing. */
  lemma TakeCounts(s: Local, w: nat)
    requires TakeTaskStep(s, w).Some?
    ensures Sum(TakeTaskStep(s, w).value.workers, Counted) == Sum(s.workers, Counted)
  {
    hide Sum, Meaning;
    var x := s.workers[w].(task := Some(s.queue[0]));
    forall l ensures Sum(s.workers[w := x], Counted)[l] == Sum(s.workers, Counted)[l] {
      SumUpdateAt(s.workers, w, x, Counted, l);
    }
  }

  /** Decoding a task counts its histogram. */
  lemma DecodeCounts(dec: Decoding, s: Local, w: nat)
    requires DecodeTaskStep(dec, s, w).Some? && Sum(s.workers, Counted) == Weight(s.done, TaskBag(dec))
    ensures var r := DecodeTaskStep(dec, s, w).value; Sum(r.workers, Counted) == Weight(r.done, TaskBag(dec))
  {
    hide Sum, Meaning, Weight, AddIps, Locs;
    var r, task := DecodeTaskStep(dec, s, w).value, s.workers[w].task.value;
    var x := r.workers[w];
    AddIpsMeaning(s.workers[w].data, dec(task));
    WeightAdd(s.done, task, TaskBag(dec));
    assert Counted(x) == Counted(s.workers[w]) + Locs(dec(task));
    forall l ensures Sum(r.workers, Counted)[l] == (Sum(s.workers, Counted) + Locs(dec(task)))[l] {
      SumUpdateAt(s.workers, w, x, Counted, l);
    }
  }

  lemma CountsStep(dec: Decoding, s: Local, e: LocalEvent)
    requires LocalInv(dec, s) && LocalNext(dec, s, e).Some?
    ensures var r := LocalNext(dec, s, e).value; Sum(r.workers, Counted) == Weight(r.done, TaskBag(dec))
  {
    hide Sum, Weight, Counted, CpuOk, DataOk, LocalBalance, SplitStep, FetchBytesStep;
    if e.TakeTask? {
      TakeCounts(s, e.worker);
    } else if e.DecodeTask? {
      DecodeCounts(dec, s, e.worker);
    }
  }

  lemma PartsStep(dec: Decoding, s: Local, e: LocalEvent)
    requires LocalInv(dec, s) && LocalNext(dec, s, e).Some?
    ensures forall i :: 0 <= i < |LocalNext(dec, s, e).value.cpus| ==> CpuOk(LocalNext(dec, s, e).value.cpus[i])
    ensures forall i :: 0 <= i < |LocalNext(dec, s, e).value.workers| ==> DataOk(LocalNext(dec, s, e).value.workers[i])
  {
    hide Sum, Weight, Counted, LocalBalance, Canonical, Aligned, PsbKept, SplitStep, FetchBytesStep, AddIps;
    if e.FetchBytes? {
      FetchKeepsCpu(s.cpus[e.cpu], e.n);
    } else if e.Split? {
      SplitKeepsCpu(s.cpus[e.cpu]);
    } else if e.DecodeTask? {
      AddIpsMeaning(s.workers[e.worker].data, dec(s.workers[e.worker].task.value));
    }
  }

  // ---- Runs -------------------------------------------------------------------------------------

  ghost function Streams(cpus: seq<Cpu>): seq<Bytes> {
    if cpus == [] then [] else [cpus[0].stream] + Streams(cpus[1..])
  }

  lemma {:induction false} StreamsUpdate(cpus: seq<Cpu>, i: nat, c: Cpu)
    requires i < |cpus| && c.stream == cpus[i].stream
    ensures Streams(cpus[i := c]) == Streams(cpus)
  {
    if i == 0 {
      assert cpus[i := c][1..] == cpus[1..];
    } else {
      assert cpus[i := c][1..] == cpus[1..][i - 1 := c];
      StreamsUpdate(cpus[1..], i - 1, c);
    }
  }

  lemma StreamsStep(dec: Decoding, s: Local, e: LocalEvent)
    requires LocalNext(dec, s, e).Some?
    ensures Streams(LocalNext(dec, s, e).value.cpus) == Streams(s.cpus)
  {
    hide Streams, PsbKept, PsbTasks, AddIps;
    if e.FetchBytes? || e.Split? || e.SendSegment? {
      StreamsUpdate(s.cpus, e.cpu, LocalNext(dec, s, e).value.cpus[e.cpu]);
    }
  }

  lemma {:induction false} InitCpusAre(streams: seq<Bytes>)
    ensures Streams(InitCpus(streams)) == streams
    ensures Sum(InitCpus(streams), Emitted) == multiset{} && Sum(InitCpus(streams), Outgoing) == multiset{}
    ensures forall i :: 0 <= i < |InitCpus(streams)| ==> CpuOk(InitCpus(streams)[i])
  {
    if streams != [] {
      InitCpusAre(streams[1..]);
      hide PsbTasks, PsbKept;
      PsbOfNothing();
      assert InitCpus(streams)[1..] == InitCpus(streams[1..]);
    }
  }

  lemma {:induction false} IdleWorkers(ws: seq<LocalWorker>)
    requires forall i :: 0 <= i < |ws| ==> ws[i].task.None?
    ensures Sum(ws, HeldTask) == multiset{}
  {
    if ws != [] {
      IdleWorkers(ws[1..]);
    }
  }

  lemma {:induction false} EmptyWorkers(ws: seq<LocalWorker>)
    requires forall i :: 0 <= i < |ws| ==> ws[i].data == map[]
    ensures Sum(ws, Counted) == multiset{}
  {
    if ws != [] {
      MeaningOfEmpty();
      EmptyWorkers(ws[1..]);
    }
  }

  lemma InitLocalInv(dec: Decoding, streams: seq<Bytes>, workers: nat)
    ensures LocalInv(dec, InitLocal(streams, workers))
    ensures Streams(InitLocal(streams, workers).cpus) == streams
  {
    hide Emitted, Outgoing, CpuOk, Meaning, Sum, HeldTask, Counted;
    var s := InitLocal(streams, workers);
    InitCpusAre(streams);
    IdleWorkers(s.workers);
    EmptyWorkers(s.workers);
  }

  lemma {:induction false} LocalRunKeeps(dec: Decoding, s: Local, es: seq<LocalEvent>)
    requires LocalInv(dec, s) && LocalRun(dec, s, es).Some?
    ensures LocalInv(dec, LocalRun(dec, s, es).value)
    ensures Streams(LocalRun(dec, s, es).value.cpus) == Streams(s.cpus)
    decreases |es|
  {
    hide LocalNext, LocalBalance, CpuOk, DataOk, Sum, Weight, Counted, Streams;
    if es != [] {
      var r := LocalNext(dec, s, es[0]).value;
      StreamsStep(dec, s, es[0]);
      PartsStep(dec, s, es[0]);
      CountsStep(dec, s, es[0]);
      forall t ensures LocalBalance(r, t) == 0 {
        TasksStep(dec, s, es[0], t);
      }
      LocalRunKeeps(dec, r, es[1..]);
    }
  }

  // ---- Quiescence -------------------------------------------------------------------------------

  /** Every queue is empty and every worker idle. */
  ghost predicate Quiet(s: Local) {
    && s.queue == []
    && (forall i :: 0 <= i < |s.cpus| ==> s.cpus[i].channel == [] && s.cpus[i].outbox == [])
    && (forall i :: 0 <= i < |s.workers| ==> s.workers[i].task.None?)
  }

  /** The last PSB of the stream has been fetched completely. */
  predicate ReadToLastPsb(c: Cpu) {
    Scan(c.stream, 0) == [] || Scan(c.stream, 0)[|Scan(c.stream, 0)| - 1] + PSB_LEN <= c.fetched
  }

  /** A PSB ends with a byte that is not the sentinel, so it is never among the bytes that stay. */
  lemma SentinelsHoldNoPsb(c: Cpu)
    requires c.fetched <= |c.stream| && AllSentinels(c.stream[c.fetched..])
    ensures ReadToLastPsb(c)
  {
    var all := Scan(c.stream, 0);
    ScanFindsPsbs(c.stream, 0);
    if all != [] {
      var o := all[|all| - 1];
      assert IsPsb(c.stream, o);
      assert forall k :: c.fetched <= k < |c.stream| ==> c.stream[k] == c.stream[c.fetched..][k - c.fetched];
      assert c.stream[o..o + PSB_LEN][PSB_LEN - 1] == Psb()[PSB_LEN - 1];
    }
  }

  /**
   * When the ring reader has stopped, and not at ten sentinels, the last PSB has been
   * fetched: the bytes that stay are fewer than ten sentinels.
   */
  lemma StoppedIsReadToLastPsb(c: Cpu)
    requires c.fetched <= |c.stream|
    requires Readable(c.stream[c.fetched..]) == 0 && !TenSentinels(c.stream[c.fetched..])
    ensures ReadToLastPsb(c)
  {
    WhereItStops(c.stream[c.fetched..]);
    assert c.stream[c.fetched..][0..] == c.stream[c.fetched..];
    SentinelsHoldNoPsb(c);
  }

  lemma FirstOffset(s: Bytes, i: nat)
    ensures Scan(s, i) == [] || i <= Scan(s, i)[0]
  {
    ScanFindsPsbs(s, i);
  }

  /** A scan sees no difference when the bytes behind the last PSB are missing. */
  lemma {:induction false} ScanOfPrefix(s: Bytes, n: nat, i: nat)
    requires n <= |s|
    requires forall k :: 0 <= k < |Scan(s, i)| ==> Scan(s, i)[k] + PSB_LEN <= n
    ensures Scan(s[..n], i) == Scan(s, i)
    decreases |s| - i
  {
    if i + PSB_LEN > n {
      FirstOffset(s, i);
    } else {
      assert s[..n][i..i + PSB_LEN] == s[i..i + PSB_LEN];
      if IsPsb(s, i) {
        var later := Scan(s, i + PSB_LEN);
        forall k | 0 <= k < |later| ensures later[k] + PSB_LEN <= n {
          assert later[k] == Scan(s, i)[k + 1];
        }
        ScanOfPrefix(s, n, i + PSB_LEN);
      } else {
        assert Scan(s, i + 1) == Scan(s, i);
        ScanOfPrefix(s, n, i + 1);
      }
    }
  }

  /** Fetching through the last PSB yields all the tasks of the stream. */
  lemma TasksOfPrefix(c: Cpu)
    requires c.fetched <= |c.stream| && ReadToLastPsb(c)
    ensures PsbTasks(c.stream[..c.fetched]) == PsbTasks(c.stream)
  {
    hide Segments;
    var s, n := c.stream, c.fetched;
    AllOffsetsFit(c);
    ScanOfPrefix(s, n, 0);
    PsbScanOrdered(s);
    PsbScanOrdered(s[..n]);
    SegmentsOfPrefix(s[..n], s[n..], Scan(s, 0));
    assert s[..n] + s[n..] == s;
  }

  lemma AllOffsetsFit(c: Cpu)
    requires ReadToLastPsb(c)
    ensures forall k :: 0 <= k < |Scan(c.stream, 0)| ==> Scan(c.stream, 0)[k] + PSB_LEN <= c.fetched
  {
    var all := Scan(c.stream, 0);
    ScanFindsPsbs(c.stream, 0);
    forall k | 0 <= k < |all| ensures all[k] + PSB_LEN <= c.fetched {
      if k < |all| - 1 {
        Increasing(all, k, |all| - 1);
      }
    }
  }

  ghost function TasksOfStream(s: Bytes): multiset<Task> { multiset(PsbTasks(s)) }

  lemma {:induction false} AllEmitted(cpus: seq<Cpu>)
    requires forall i :: 0 <= i < |cpus| ==>
      CpuOk(cpus[i]) && cpus[i].channel == [] && cpus[i].outbox == [] && ReadToLastPsb(cpus[i])
    ensures Sum(cpus, Emitted) == Sum(Streams(cpus), TasksOfStream)
    ensures Sum(cpus, Outgoing) == multiset{}
  {
    hide PsbTasks, PsbKept, ReadToLastPsb;
    if cpus != [] {
      AllEmitted(cpus[1..]);
      var c := cpus[0];
      TasksOfPrefix(c);
      assert c.received == c.received + Flat(c.channel) == c.stream[..c.fetched];
      assert Streams(cpus)[1..] == Streams(cpus[1..]);
    }
  }

  /** pd.data of every worker, as collect_all_data merges them. */
  ghost function Maps(ws: seq<LocalWorker>): seq<Dense> {
    if ws == [] then [] else [ws[0].data] + Maps(ws[1..])
  }

  lemma {:induction false} MapsMean(ws: seq<LocalWorker>)
    requires forall i :: 0 <= i < |ws| ==> DataOk(ws[i])
    ensures Meaning(MergeAll(Maps(ws))) == Sum(ws, Counted)
    ensures Canonical(MergeAll(Maps(ws))) && Aligned(MergeAll(Maps(ws)))
  {
    if ws == [] {
      MeaningOfEmpty();
    } else {
      MapsMean(ws[1..]);
      var m, rest := ws[0].data, MergeAll(Maps(ws[1..]));
      assert MergeAll(Maps(ws)) == Merge(m, rest) by {
        assert Maps(ws)[1..] == Maps(ws[1..]);
      }
      hide Merge, Meaning, Canonical, Aligned;
      MergeMeaning(m, rest);
      MergeKeeps(m, rest);
    }
  }

  /** At quiescence, once every last PSB was fetched, the merged map is the histogram of all tasks of all streams. */
  lemma QuiescentTotal(dec: Decoding, streams: seq<Bytes>, workers: nat, s: Local)
    requires LocalReachable(dec, streams, workers, s) && Quiet(s)
    requires forall i :: 0 <= i < |s.cpus| ==> ReadToLastPsb(s.cpus[i])
    ensures Meaning(MergeAll(Maps(s.workers))) == Weight(Sum(streams, TasksOfStream), TaskBag(dec))
    ensures Canonical(MergeAll(Maps(s.workers))) && Aligned(MergeAll(Maps(s.workers)))
  {
    hide Meaning, Weight, Sum, CpuOk, ReadToLastPsb, Counted, Streams, Canonical, Aligned, MergeAll, DataOk;
    var es :| LocalRun(dec, InitLocal(streams, workers), es) == Some(s);
    InitLocalInv(dec, streams, workers);
    LocalRunKeeps(dec, InitLocal(streams, workers), es);
    AllEmitted(s.cpus);
    IdleWorkers(s.workers);
    MapsMean(s.workers);
    forall t ensures Sum(streams, TasksOfStream)[t] == s.done[t] {
      assert LocalBalance(s, t) == 0;
    }
    assert Sum(streams, TasksOfStream) == s.done;
  }

  /**
   * End to end: the merged map depends only on the processors' streams. Polling times,
   * fetch sizes, chunk borders, the order of tasks in the queue, the number of workers
   * and who took which task make no difference, nor does anything behind the last PSB.
   */
  lemma EndToEnd(dec: Decoding, streams: seq<Bytes>, n1: nat, s1: Local, n2: nat, s2: Local)
    requires LocalReachable(dec, streams, n1, s1) && Quiet(s1)
    requires LocalReachable(dec, streams, n2, s2) && Quiet(s2)
    requires forall i :: 0 <= i < |s1.cpus| ==> ReadToLastPsb(s1.cpus[i])
    requires forall i :: 0 <= i < |s2.cpus| ==> ReadToLastPsb(s2.cpus[i])
    ensures MergeAll(Maps(s1.workers)) == MergeAll(Maps(s2.workers))
  {
    QuiescentTotal(dec, streams, n1, s1);
    QuiescentTotal(dec, streams, n2, s2);
    CanonicalUnique(MergeAll(Maps(s1.workers)), MergeAll(Maps(s2.workers)));
  }

  /** The ring reader has nothing more to read of this processor, and is not stuck. */
  ghost predicate ReaderIsDone(c: Cpu) {
    c.fetched <= |c.stream| && Readable(c.stream[c.fetched..]) == 0 && !TenSentinels(c.stream[c.fetched..])
  }

  /** End to end from the rings: the hypothesis about the last PSB follows from the reader. */
  lemma EndToEndFromRings(dec: Decoding, streams: seq<Bytes>, n1: nat, s1: Local, n2: nat, s2: Local)
    requires LocalReachable(dec, streams, n1, s1) && Quiet(s1)
    requires LocalReachable(dec, streams, n2, s2) && Quiet(s2)
    requires forall i :: 0 <= i < |s1.cpus| ==> ReaderIsDone(s1.cpus[i])
    requires forall i :: 0 <= i < |s2.cpus| ==> ReaderIsDone(s2.cpus[i])
    ensures MergeAll(Maps(s1.workers)) == MergeAll(Maps(s2.workers))
  {
    hide LocalReachable, Quiet, ReadToLastPsb;
    forall i | 0 <= i < |s1.cpus| ensures ReadToLastPsb(s1.cpus[i]) {
      StoppedIsReadToLastPsb(s1.cpus[i]);
    }
    forall i | 0 <= i < |s2.cpus| ensures ReadToLastPsb(s2.cpus[i]) {
      StoppedIsReadToLastPsb(s2.cpus[i]);
    }
    EndToEnd(dec, streams, n1, s1, n2, s2);
  }

  /** Local and distributed decoding agree: a drained pool given the tasks of the streams counts the same map. */
  lemma LocalAndDistributedAgree(dec: Decoding, streams: seq<Bytes>, n: nat, s: Local, p: Pool)
    requires LocalReachable(dec, streams, n, s) && Quiet(s)
    requires forall i :: 0 <= i < |s.cpus| ==> ReadToLastPsb(s.cpus[i])
    requires PoolReachable(dec, p) && PoolDrained(p)
    requires multiset(p.submitted) - multiset(p.lost) == Sum(streams, TasksOfStream)
    ensures MergeAll(Maps(s.workers)) == MergeAll(Held(p.clients))
  {
    hide PoolReachable, PoolDrained;
    QuiescentTotal(dec, streams, n, s);
    PoolDrainedTotal(dec, p);
    CanonicalUnique(MergeAll(Maps(s.workers)), MergeAll(Held(p.clients)));
  }
}

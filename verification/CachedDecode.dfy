// Decoding through the page cache. A decoder run is a strategy: what it does at
// each step depends on the trace it was given and on the memory it has read so
// far. Reading through a cache that persists from task to task gives the same
// answers as reading memory directly, so the result of a task depends on the task
// and on memory alone, never on what the worker decoded before.
module CachedDecode {
  import opened Basics
  import opened CountMaps
  import opened PageCache
  import opened CacheTransparency
  import opened DecodeLoop

  datatype Action =
    | ReadMem(addr: nat, buf: Bytes)   // the image callback
    | NextAnswer(a: Answer)            // decoder.next() returns
    | SyncAnswer(ok: bool)             // decoder.sync_forward() returns
    | Done

  /** The action at step k, given what the reads so far left and returned. */
  type Strategy = (nat, seq<ReadResult>) -> Action

  /** Instruction bytes are never in page zero and reach at most one page boundary. */
  ghost predicate ReadsServable(d: Strategy) {
    forall k, h :: d(k, h).ReadMem? ==> Servable(d(k, h).addr, |d(k, h).buf|)
  }

  /** The first n steps through a cache: the answers given, and the cache left behind. */
  ghost function Play(d: Strategy, c: Cache, h: seq<ReadResult>, k: nat, n: nat): (Cache, seq<Action>)
    requires WellFormed(c) && c.lastPage == 0 && ReadsServable(d)
    decreases n
  {
    if n == 0 || d(k, h).Done? then (c, [])
    else if d(k, h).ReadMem? then
      var (c1, r) := Get(c, d(k, h).addr, d(k, h).buf);
      GetKeeps(c, d(k, h).addr, d(k, h).buf);
      Play(d, c1, h + [r], k + 1, n - 1)
    else
      var (c1, rest) := Play(d, c, h, k + 1, n - 1);
      (c1, [d(k, h)] + rest)
  }

  /** The same steps reading memory directly. */
  ghost function PlayDirect(d: Strategy, f: Reader, h: seq<ReadResult>, k: nat, n: nat): seq<Action>
    requires ReadsServable(d)
    decreases n
  {
    if n == 0 || d(k, h).Done? then []
    else if d(k, h).ReadMem? then
      PlayDirect(d, f, h + [UncachedGet(f, d(k, h).addr, d(k, h).buf)], k + 1, n - 1)
    else [d(k, h)] + PlayDirect(d, f, h, k + 1, n - 1)
  }

  lemma PlayStep(d: Strategy, c: Cache, h: seq<ReadResult>, k: nat, n: nat)
    requires WellFormed(c) && c.lastPage == 0 && ReadsServable(d) && n > 0
    ensures d(k, h).ReadMem? ==>
      var (c1, r) := Get(c, d(k, h).addr, d(k, h).buf);
      WellFormed(c1) && c1.lastPage == 0 && c1.f == c.f && Play(d, c, h, k, n) == Play(d, c1, h + [r], k + 1, n - 1)
    ensures !d(k, h).ReadMem? && !d(k, h).Done? ==>
      Play(d, c, h, k, n) == (Play(d, c, h, k + 1, n - 1).0, [d(k, h)] + Play(d, c, h, k + 1, n - 1).1)
  {
    hide Get;
    if d(k, h).ReadMem? {
      GetKeeps(c, d(k, h).addr, d(k, h).buf);
    }
  }

  lemma ReadIsServable(d: Strategy, k: nat, h: seq<ReadResult>)
    requires ReadsServable(d) && d(k, h).ReadMem?
    ensures Servable(d(k, h).addr, |d(k, h).buf|) && OffOf(d(k, h).addr) + |d(k, h).buf| < 2 * PAGE_SIZE
    ensures forall c: Cache :: c.lastPage == 0 ==> CanGet(c, d(k, h).addr, |d(k, h).buf|)
  {
  }

  lemma PlayDirectStep(d: Strategy, f: Reader, h: seq<ReadResult>, k: nat, n: nat)
    requires ReadsServable(d) && n > 0 && d(k, h).ReadMem? && OffOf(d(k, h).addr) + |d(k, h).buf| < 2 * PAGE_SIZE
    ensures PlayDirect(d, f, h, k, n)
         == PlayDirect(d, f, h + [UncachedGet(f, d(k, h).addr, d(k, h).buf)], k + 1, n - 1)
  {
    hide UncachedGet;
  }

  // ---- The log only grows ------------------------------------------------------------

  lemma GetLogs(c: Cache, addr: nat, buf: Bytes) returns (more: seq<Call>)
    requires WellFormed(c) && c.lastPage == 0 && Servable(addr, |buf|)
    ensures Get(c, addr, buf).0.log == c.log + more
  {
    hide PageOf, OffOf, OnePage;
    if PageOf(addr) == PageOf(addr + |buf|) {
      WithinPage(addr, |buf|);
      more := OnePageLogs(c, addr, buf);
    } else {
      var n := FirstPart(addr, |buf|);
      NextPart(addr, |buf|);
      OnePageKeeps(c, addr, buf[..n]);
      var first := OnePageLogs(c, addr, buf[..n]);
      var second := OnePageLogs(OnePage(c, addr, buf[..n]).0, addr + n, buf[n..]);
      more := first + second;
    }
  }

  lemma {:induction false} PlayLogs(d: Strategy, c: Cache, h: seq<ReadResult>, k: nat, n: nat) returns (more: seq<Call>)
    requires WellFormed(c) && c.lastPage == 0 && ReadsServable(d)
    ensures Play(d, c, h, k, n).0.log == c.log + more && Play(d, c, h, k, n).0.f == c.f
    ensures WellFormed(Play(d, c, h, k, n).0) && Play(d, c, h, k, n).0.lastPage == 0
    decreases n
  {
    more := [];
    if n > 0 && !d(k, h).Done? {
      PlayStep(d, c, h, k, n);
      hide Play, Get, WellFormed;
      if d(k, h).ReadMem? {
        ReadIsServable(d, k, h);
        var (c1, r) := Get(c, d(k, h).addr, d(k, h).buf);
        var first := GetLogs(c, d(k, h).addr, d(k, h).buf);
        var rest := PlayLogs(d, c1, h + [r], k + 1, n - 1);
        more := first + rest;
      } else {
        more := PlayLogs(d, c, h, k + 1, n - 1);
      }
    }
  }

  lemma PlayKeeps(d: Strategy, c: Cache, h: seq<ReadResult>, k: nat, n: nat)
    requires WellFormed(c) && c.lastPage == 0 && ReadsServable(d)
    ensures WellFormed(Play(d, c, h, k, n).0) && Play(d, c, h, k, n).0.lastPage == 0
  {
    var more := PlayLogs(d, c, h, k, n);
  }

  // ---- Through a cache and directly ------------------------------------------------------

  lemma {:induction false} ReadStepIsDirect(d: Strategy, g: Reader, c: Cache, h: seq<ReadResult>, k: nat, n: nat)
    requires ReadsServable(d) && Sound(c, g) && c.f.Some? && RangeCoherent(g)
    requires Answered(c.f.value, g, Play(d, c, h, k, n).0.log, |c.log|)
    requires n > 0 && d(k, h).ReadMem?
    ensures Play(d, c, h, k, n).1 == PlayDirect(d, g, h, k, n)
    ensures Sound(Play(d, c, h, k, n).0, g)
    decreases n, 0
  {
    hide Play, PlayDirect, Get, UncachedGet, Answered, RangeCoherent, Sound, ReadsServable, WellFormed, Servable;
    SoundIsWellFormed(c, g);
    ReadIsServable(d, k, h);
    PlayStep(d, c, h, k, n);
    PlayDirectStep(d, g, h, k, n);
    var (c1, r) := Get(c, d(k, h).addr, d(k, h).buf);
    var first := GetLogs(c, d(k, h).addr, d(k, h).buf);
    var rest := PlayLogs(d, c1, h + [r], k + 1, n - 1);
    AnsweredFirst(c.f.value, g, c1.log, |c.log|, |c1.log|, rest);
    GetTransparent(c, g, d(k, h).addr, d(k, h).buf);
    PlayIsDirect(d, g, c1, h + [r], k + 1, n - 1);
  }

  lemma {:induction false} AnswerStepIsDirect(d: Strategy, g: Reader, c: Cache, h: seq<ReadResult>, k: nat, n: nat)
    requires ReadsServable(d) && Sound(c, g) && c.f.Some? && RangeCoherent(g)
    requires Answered(c.f.value, g, Play(d, c, h, k, n).0.log, |c.log|)
    requires n > 0 && !d(k, h).ReadMem? && !d(k, h).Done?
    ensures Play(d, c, h, k, n).1 == PlayDirect(d, g, h, k, n)
    ensures Sound(Play(d, c, h, k, n).0, g)
    decreases n, 0
  {
    hide Play, Get, UncachedGet, Answered, RangeCoherent, Sound;
    SoundIsWellFormed(c, g);
    PlayStep(d, c, h, k, n);
    PlayIsDirect(d, g, c, h, k + 1, n - 1);
  }

  /**
   * Any number of steps of any decoder give the same answers through any sound cache as
   * against g, if the calls the cache really makes are answered as g answers them.
   */
  lemma {:induction false} PlayIsDirect(d: Strategy, g: Reader, c: Cache, h: seq<ReadResult>, k: nat, n: nat)
    requires ReadsServable(d) && Sound(c, g) && c.f.Some? && RangeCoherent(g)
    requires Answered(c.f.value, g, Play(d, c, h, k, n).0.log, |c.log|)
    ensures Play(d, c, h, k, n).1 == PlayDirect(d, g, h, k, n)
    ensures Sound(Play(d, c, h, k, n).0, g)
    decreases n, 1
  {
    if n > 0 && d(k, h).ReadMem? {
      ReadStepIsDirect(d, g, c, h, k, n);
    } else if n > 0 && !d(k, h).Done? {
      AnswerStepIsDirect(d, g, c, h, k, n);
    }
  }

  /** A worker decodes tasks one after the other, installing the reader for each. */
  ghost function DecodeAll(ds: seq<Strategy>, f: Reader, c: Cache, n: nat): (Cache, seq<seq<Action>>)
    requires WellFormed(c) && c.lastPage == 0
    requires forall i :: 0 <= i < |ds| ==> ReadsServable(ds[i])
    decreases |ds|
  {
    if ds == [] then (c, []) else
      PlayKeeps(ds[0], c.(f := Some(f)), [], 0, n);
      var (c1, out) := Play(ds[0], c.(f := Some(f)), [], 0, n);
      var (c2, rest) := DecodeAll(ds[1..], f, c1, n);
      (c2, [out] + rest)
  }

  lemma {:induction false} DecodeLogs(ds: seq<Strategy>, f: Reader, c: Cache, n: nat) returns (more: seq<Call>)
    requires WellFormed(c) && c.lastPage == 0
    requires forall i :: 0 <= i < |ds| ==> ReadsServable(ds[i])
    ensures DecodeAll(ds, f, c, n).0.log == c.log + more
    decreases |ds|
  {
    hide WellFormed;
    more := [];
    if ds != [] {
      var c0 := c.(f := Some(f));
      SameWellFormed(c, c0);
      var first := PlayLogs(ds[0], c0, [], 0, n);
      hide Play;
      var rest := DecodeLogs(ds[1..], f, Play(ds[0], c0, [], 0, n).0, n);
      more := first + rest;
    }
  }

  lemma SameWellFormed(c: Cache, c0: Cache)
    requires WellFormed(c) && c0 == c.(f := c0.f)
    ensures WellFormed(c0)
  {
  }

  lemma InstallIsSound(c: Cache, f: Reader, g: Reader)
    requires Sound(c, g)
    ensures Sound(c.(f := Some(f)), g)
  {
  }

  /**
   * Each task's answers are those of decoding it alone against g, whatever was decoded
   * before, if the calls the worker really made were answered as g answers them.
   */
  lemma {:induction false} CachePersistenceIsInvisible(ds: seq<Strategy>, f: Reader, g: Reader, c: Cache,
                                                       n: nat, i: nat)
    requires forall j :: 0 <= j < |ds| ==> ReadsServable(ds[j])
    requires Sound(c, g) && RangeCoherent(g) && i < |ds|
    requires Answered(f, g, DecodeAll(ds, f, c, n).0.log, |c.log|)
    ensures |DecodeAll(ds, f, c, n).1| == |ds|
    ensures DecodeAll(ds, f, c, n).1[i] == PlayDirect(ds[i], g, [], 0, n)
    decreases |ds|
  {
    hide PlayDirect, Answered, RangeCoherent, Sound, ReadsServable, WellFormed;
    SoundIsWellFormed(c, g);
    InstallIsSound(c, f, g);
    var c0 := c.(f := Some(f));
    SoundIsWellFormed(c0, g);
    var first := PlayLogs(ds[0], c0, [], 0, n);
    hide Play;
    var c1 := Play(ds[0], c0, [], 0, n).0;
    var rest := DecodeLogs(ds[1..], f, c1, n);
    AnsweredFirst(f, g, c1.log, |c.log|, |c1.log|, rest);
    PlayIsDirect(ds[0], g, c0, [], 0, n);
    if |ds| > 1 {
      CachePersistenceIsInvisible(ds[1..], f, g, c1, n, if i == 0 then 0 else i - 1);
    }
  }

  ghost function Nexts(out: seq<Action>): seq<Answer> {
    if out == [] then [] else (if out[0].NextAnswer? then [out[0].a] else []) + Nexts(out[1..])
  }

  ghost function Syncs(out: seq<Action>): seq<bool> {
    if out == [] then [] else (if out[0].SyncAnswer? then [out[0].ok] else []) + Syncs(out[1..])
  }

  /** What a run of answers makes decode count. */
  ghost function CountedBy(out: seq<Action>): seq<nat> {
    DecodedTask(Nexts(out), Syncs(out))
  }

  /** The answers the loop of decode is given from a synchronised state, in order. */
  ghost function LoopAnswers<S(!new)>(m: Machine<S>, s: S): seq<Action>
    requires Advances(m)
    decreases m.len - m.offset(s), m.left(s)
  {
    var (a, t) := m.next(s);
    var (ok, u) := m.sync(t);
    assert AdvancesAt(m, s) && AdvancesAt(m, t) && AdvancesAt(m, u);
    match a
    case Ins(_) => [NextAnswer(a)] + LoopAnswers(m, t)
    case Err(Nosync) => [NextAnswer(a), SyncAnswer(ok)] + if ok then LoopAnswers(m, u) else []
    case Err(BadQuery) => [NextAnswer(a), SyncAnswer(ok)] + if ok then LoopAnswers(m, u) else []
    case Err(Other) => [NextAnswer(a)]
  }

  /** All the answers of a task: the first synchronisation, and the loop's when it succeeds. */
  ghost function TaskAnswers<S(!new)>(m: Machine<S>, s: S): seq<Action>
    requires Advances(m)
  {
    var (ok, t) := m.sync(s);
    [SyncAnswer(ok)] + if ok then LoopAnswers(m, t) else []
  }

  /** Separating the answers of a run by kind. */
  lemma SplitAnswers(a: Action, rest: seq<Action>)
    ensures Nexts([a] + rest) == (if a.NextAnswer? then [a.a] else []) + Nexts(rest)
    ensures Syncs([a] + rest) == (if a.SyncAnswer? then [a.ok] else []) + Syncs(rest)
  {
    assert ([a] + rest)[1..] == rest;
  }

  lemma {:induction false} LoopAnswersGiven<S(!new)>(m: Machine<S>, s: S, nexts: seq<Answer>, syncs: seq<bool>)
    requires Advances(m) && Gives(m, s, nexts, syncs)
    ensures Nexts(LoopAnswers(m, s)) == nexts && Syncs(LoopAnswers(m, s)) == syncs
    decreases |nexts|
  {
    hide Advances, Nexts, Syncs;
    AdvancesNext(m, s);
    NoAnswers();
    var (a, t) := m.next(s);
    var (ok, u) := m.sync(t);
    assert nexts == [a] + nexts[1..];
    if a.Ins? {
      LoopAnswersGiven(m, t, nexts[1..], syncs);
      SplitAnswers(NextAnswer(a), LoopAnswers(m, t));
    } else if Resyncs(a) {
      assert syncs == [ok] + syncs[1..];
      var rest := if ok then LoopAnswers(m, u) else [];
      if ok {
        LoopAnswersGiven(m, u, nexts[1..], syncs[1..]);
      }
      assert [NextAnswer(a), SyncAnswer(ok)] + rest == [NextAnswer(a)] + ([SyncAnswer(ok)] + rest);
      SplitAnswers(SyncAnswer(ok), rest);
      SplitAnswers(NextAnswer(a), [SyncAnswer(ok)] + rest);
    } else {
      assert [NextAnswer(a)] == [NextAnswer(a)] + [];
      SplitAnswers(NextAnswer(a), []);
    }
  }

  lemma NoAnswers()
    ensures Nexts([]) == [] && Syncs([]) == []
  {
  }

  /**
   * What a worker counts from its decoder's answers is what decode counts: when they are
   * the answers a machine gives to a task, every instruction among them after a first
   * synchronisation that succeeds, and nothing after one that fails.
   */
  lemma CountedByIsCountedTask<S(!new)>(m: Machine<S>, s: S, nexts: seq<Answer>, syncs: seq<bool>)
    requires Advances(m)
    ensures CountedBy(TaskAnswers(m, s)) == CountedTask(m, s)
    ensures m.sync(s).0 && Gives(m, m.sync(s).1, nexts, syncs) ==> CountedBy(TaskAnswers(m, s)) == InsOf(nexts)
    ensures !m.sync(s).0 ==> CountedBy(TaskAnswers(m, s)) == []
  {
    hide Advances, Nexts, Syncs, Decoded, Counted, LoopAnswers;
    var (ok, t) := m.sync(s);
    TaskCountsItsInstructions(m, s, nexts, syncs);
    var rest := if ok then LoopAnswers(m, t) else [];
    SplitAnswers(SyncAnswer(ok), rest);
    if ok {
      var ns, ss := AdvancingLoopEnds(m, t);
      LoopAnswersGiven(m, t, ns, ss);
      CountedIsDecoded(m, t, ns, ss);
      assert ([ok] + ss)[1..] == ss && [] + ns == ns;
    }
  }

  /** A run that begins with a failed synchronisation counts nothing, whatever follows. */
  lemma FailedSyncCountsNothing(rest: seq<Action>)
    ensures CountedBy([SyncAnswer(false)] + rest) == []
  {
    SplitAnswers(SyncAnswer(false), rest);
  }

  /** The answers of a list of actions: all of them but the reads. */
  ghost function AnswersIn(script: seq<Action>): seq<Action> {
    if script == [] then [] else (if script[0].ReadMem? then [] else [script[0]]) + AnswersIn(script[1..])
  }

  /** The decoder that acts as listed, whatever it reads. */
  ghost function Scripted(script: seq<Action>): Strategy {
    (k: nat, h: seq<ReadResult>) => if k < |script| then script[k] else Done
  }

  /** Playing it gives each of its answers once and in order. */
  lemma {:induction false} PlayGivesTheAnswers(script: seq<Action>, f: Reader, h: seq<ReadResult>, k: nat)
    requires k <= |script| && ReadsServable(Scripted(script)) && forall i :: 0 <= i < |script| ==> !script[i].Done?
    ensures PlayDirect(Scripted(script), f, h, k, |script| - k) == AnswersIn(script[k..])
    decreases |script| - k
  {
    hide UncachedGet, ReadsServable;
    var d := Scripted(script);
    if k < |script| {
      assert script[k..][1..] == script[k + 1..] && d(k, h) == script[k];
      if script[k].ReadMem? {
        ReadIsServable(d, k, h);
        PlayDirectStep(d, f, h, k, |script| - k);
        PlayGivesTheAnswers(script, f, h + [UncachedGet(f, script[k].addr, script[k].buf)], k + 1);
      } else {
        PlayGivesTheAnswers(script, f, h, k + 1);
      }
    }
  }

  /** So the counts of a task are a fixed function of the task and of memory, on every worker. */
  lemma TaskCountsAreFixed(ds: seq<Strategy>, f: Reader, es: seq<Strategy>, e: Reader, g: Reader,
                           n: nat, i: nat, j: nat)
    requires forall k :: 0 <= k < |ds| ==> ReadsServable(ds[k])
    requires forall k :: 0 <= k < |es| ==> ReadsServable(es[k])
    requires RangeCoherent(g) && i < |ds| && j < |es| && ds[i] == es[j]
    requires Answered(f, g, DecodeAll(ds, f, EMPTY, n).0.log, 0)
    requires Answered(e, g, DecodeAll(es, e, EMPTY, n).0.log, 0)
    ensures |DecodeAll(ds, f, EMPTY, n).1| == |ds| && |DecodeAll(es, e, EMPTY, n).1| == |es|
    ensures CountedBy(DecodeAll(ds, f, EMPTY, n).1[i]) == CountedBy(DecodeAll(es, e, EMPTY, n).1[j])
  {
    hide PlayDirect, Answered, RangeCoherent, CountedBy, DecodeAll, ReadsServable;
    EmptyIsSound(g);
    CachePersistenceIsInvisible(ds, f, g, EMPTY, n, i);
    CachePersistenceIsInvisible(es, e, g, EMPTY, n, j);
  }

  // ---- Steady readers -------------------------------------------------------------------

  lemma {:induction false} PlaySteady(d: Strategy, f: Reader, c: Cache, h: seq<ReadResult>, k: nat, n: nat)
    requires ReadsServable(d) && WellFormed(c) && c.lastPage == 0 && c.f == Some(f) && Steady(f)
    ensures Answered(f, f, Play(d, c, h, k, n).0.log, |c.log|)
    decreases n
  {
    hide Steady, Answered;
    if n == 0 || d(k, h).Done? {
      NothingCalled(f, f, c.log);
    } else {
      PlayStep(d, c, h, k, n);
      hide Play, Get, WellFormed;
      if d(k, h).ReadMem? {
        ReadIsServable(d, k, h);
        var (c1, r) := Get(c, d(k, h).addr, d(k, h).buf);
        GetSteady(c, f, d(k, h).addr, d(k, h).buf);
        PlaySteady(d, f, c1, h + [r], k + 1, n - 1);
        var first := GetLogs(c, d(k, h).addr, d(k, h).buf);
        var rest := PlayLogs(d, c1, h + [r], k + 1, n - 1);
        AnsweredBoth(f, f, c1.log, |c.log|, rest);
      } else {
        PlaySteady(d, f, c, h, k + 1, n - 1);
      }
    }
  }

  lemma NothingCalled(f: Reader, g: Reader, log: seq<Call>)
    ensures Answered(f, g, log, |log|)
  {
  }

  /** A worker whose reader never changes its answers makes no other calls than such. */
  lemma {:induction false} DecodeAllSteady(ds: seq<Strategy>, f: Reader, c: Cache, n: nat)
    requires forall j :: 0 <= j < |ds| ==> ReadsServable(ds[j])
    requires WellFormed(c) && c.lastPage == 0 && Steady(f)
    ensures Answered(f, f, DecodeAll(ds, f, c, n).0.log, |c.log|)
    decreases |ds|
  {
    hide Steady, Answered, WellFormed, ReadsServable;
    if ds == [] {
      NothingCalled(f, f, c.log);
    } else {
      var c0 := c.(f := Some(f));
      SameWellFormed(c, c0);
      var first := PlayLogs(ds[0], c0, [], 0, n);
      PlaySteady(ds[0], f, c0, [], 0, n);
      hide Play;
      var c1 := Play(ds[0], c0, [], 0, n).0;
      DecodeAllSteady(ds[1..], f, c1, n);
      var rest := DecodeLogs(ds[1..], f, c1, n);
      AnsweredBoth(f, f, c1.log, |c.log|, rest);
    }
  }
}

// What the page cache guarantees over every history of reads, installs and clears.
module CacheTransparency {
  import opened Basics
  import opened CountMaps
  import opened PageCache

  // ---- The memory behind the cache ---------------------------------------------

  /** The reader's answers do not change between calls, for the ranges the cache asks for. */
  ghost predicate Steady(f: Reader) {
    forall k, a, b :: SteadyAt(f, k, a, b)
  }

  ghost predicate SteadyAt(f: Reader, k: nat, a: nat, b: Bytes) {
    OffOf(a) + |b| <= PAGE_SIZE ==> f(k, a, b) == f(0, a, b)
  }

  /** Where a whole page can be read, so can every range in it, with the same bytes. */
  ghost predicate RangeCoherent(f: Reader) {
    forall a, b :: CoherentAt(f, a, b)
  }

  ghost predicate CoherentAt(f: Reader, a: nat, b: Bytes) {
    OffOf(a) + |b| <= PAGE_SIZE && f(0, PageOf(a), Zeros(PAGE_SIZE)).count == PAGE_SIZE ==>
      f(0, a, b) == ReadResult(f(0, PageOf(a), Zeros(PAGE_SIZE)).data[OffOf(a)..OffOf(a) + |b|], |b|)
  }

  ghost predicate IsMemory(mem: nat -> byte, a: nat, data: Bytes) {
    forall i :: 0 <= i < |data| ==> data[i] == mem(a + i)
  }

  /** A read within a page that reports full length delivered memory. */
  ghost predicate Faithful(f: Reader, mem: nat -> byte) {
    forall a, b :: FaithfulAt(f, mem, a, b)
  }

  ghost predicate FaithfulAt(f: Reader, mem: nat -> byte, a: nat, b: Bytes) {
    OffOf(a) + |b| <= PAGE_SIZE && f(0, a, b).count == |b| ==> IsMemory(mem, a, f(0, a, b).data)
  }

  /** A read straight through, reporting failure as 0. */
  ghost function Uncached(f: Reader, addr: nat, buf: Bytes): ReadResult {
    ReadResult(f(0, addr, buf).data, if f(0, addr, buf).count == |buf| then |buf| else 0)
  }

  /** The same read with no cache, split at the page boundary like the program's. */
  ghost function UncachedGet(f: Reader, addr: nat, buf: Bytes): ReadResult
    requires OffOf(addr) + |buf| < 2 * PAGE_SIZE
  {
    if PageOf(addr) == PageOf(addr + |buf|) then Uncached(f, addr, buf) else
      var n := FirstPart(addr, |buf|);
      var r1, r2 := Uncached(f, addr, buf[..n]), Uncached(f, addr + n, buf[n..]);
      ReadResult(r1.data + r2.data, r1.count + r2.count)
  }

  // ---- Which calls have to be answered well ----------------------------------------

  /** f answered its k-th call as g answers it. */
  ghost predicate AnsweredAs(f: Reader, g: Reader, k: nat, call: Call) {
    match call
    case Load(p, _) => f(k, p, Zeros(PAGE_SIZE)) == g(0, p, Zeros(PAGE_SIZE))
    case Direct(a, len) => forall b: Bytes :: |b| == len ==> f(k, a, b) == g(0, a, b)
  }

  /** The calls logged from position `from` on were answered as g answers them. */
  ghost predicate Answered(f: Reader, g: Reader, log: seq<Call>, from: nat) {
    forall k :: from <= k < |log| ==> AnsweredAs(f, g, k, log[k])
  }

  lemma AnsweredFirst(f: Reader, g: Reader, log: seq<Call>, from: nat, to: nat, more: seq<Call>)
    requires from <= to == |log| && Answered(f, g, log + more, from)
    ensures Answered(f, g, log, from) && Answered(f, g, log + more, to)
  {
    assert forall k :: from <= k < |log| ==> (log + more)[k] == log[k];
  }

  // ---- The cache holds memory ----------------------------------------------------

  /** Every cached page is what g reads there; page zero is never cached. */
  ghost predicate Sound(c: Cache, g: Reader) {
    && WellFormed(c) && c.lastPage == 0
    && forall p :: p in c.pages ==>
         IsPage(p) && p != 0 && g(0, p, Zeros(PAGE_SIZE)) == ReadResult(c.pages[p], PAGE_SIZE)
  }

  lemma PageReadIsUncached(g: Reader, addr: nat, buf: Bytes)
    requires RangeCoherent(g) && OffOf(addr) + |buf| <= PAGE_SIZE
    requires g(0, PageOf(addr), Zeros(PAGE_SIZE)).count == PAGE_SIZE
    ensures Item(g(0, PageOf(addr), Zeros(PAGE_SIZE)).data, addr, |buf|) == Uncached(g, addr, buf)
  {
    hide PageOf, OffOf;
    assert CoherentAt(g, addr, buf);
  }

  /** What a miss calls. */
  lemma MissCalls(c: Cache, f: Reader, g: Reader, addr: nat, buf: Bytes)
    requires OffOf(addr) + |buf| <= PAGE_SIZE && Answered(f, g, Miss(c, f, addr, buf).0.log, |c.log|)
    ensures f(|c.log|, PageOf(addr), Zeros(PAGE_SIZE)) == g(0, PageOf(addr), Zeros(PAGE_SIZE))
    ensures f(|c.log|, PageOf(addr), Zeros(PAGE_SIZE)).count != PAGE_SIZE ==>
      f(|c.log| + 1, addr, buf) == g(0, addr, buf)
  {
    hide PageOf, OffOf, Item;
    var log := Miss(c, f, addr, buf).0.log;
    assert AnsweredAs(f, g, |c.log|, log[|c.log|]);
    if f(|c.log|, PageOf(addr), Zeros(PAGE_SIZE)).count != PAGE_SIZE {
      assert AnsweredAs(f, g, |c.log| + 1, log[|c.log| + 1]);
    }
  }

  lemma MissIsUncached(c: Cache, f: Reader, g: Reader, addr: nat, buf: Bytes)
    requires RangeCoherent(g) && OffOf(addr) + |buf| <= PAGE_SIZE
    requires Answered(f, g, Miss(c, f, addr, buf).0.log, |c.log|)
    ensures Miss(c, f, addr, buf).1 == Uncached(g, addr, buf)
  {
    hide Answered, RangeCoherent, PageOf, OffOf;
    MissCalls(c, f, g, addr, buf);
    if g(0, PageOf(addr), Zeros(PAGE_SIZE)).count == PAGE_SIZE {
      PageReadIsUncached(g, addr, buf);
    }
  }

  lemma MissIsSound(c: Cache, f: Reader, g: Reader, addr: nat, buf: Bytes)
    requires Sound(c, g) && PageOf(addr) != 0 && OffOf(addr) + |buf| <= PAGE_SIZE
    requires Answered(f, g, Miss(c, f, addr, buf).0.log, |c.log|)
    ensures Sound(Miss(c, f, addr, buf).0, g)
  {
    hide Answered, PageOf, OffOf, Item;
    LocIsInjective(addr, addr);
    MissCalls(c, f, g, addr, buf);
  }

  /**
   * One read within a non-zero page whose calls, if it makes any, are answered as g
   * answers them is the uncached read of g, and keeps the cache sound.
   */
  lemma OnePageTransparent(c: Cache, g: Reader, addr: nat, buf: Bytes)
    requires Sound(c, g) && c.f.Some? && RangeCoherent(g)
    requires PageOf(addr) != 0 && OffOf(addr) + |buf| <= PAGE_SIZE
    requires Answered(c.f.value, g, OnePage(c, addr, buf).0.log, |c.log|)
    ensures OnePage(c, addr, buf).1 == Uncached(g, addr, buf)
    ensures Sound(OnePage(c, addr, buf).0, g)
  {
    hide PageOf, OffOf, RangeCoherent, Answered, Miss, Uncached, Item;
    if PageOf(addr) in c.pages {
      PageReadIsUncached(g, addr, buf);
    } else {
      MissIsUncached(c, c.f.value, g, addr, buf);
      MissIsSound(c, c.f.value, g, addr, buf);
    }
  }

  lemma NextPart(addr: nat, len: nat)
    requires OffOf(addr) + len < 2 * PAGE_SIZE && PageOf(addr) != PageOf(addr + len)
    ensures FirstPart(addr, len) == PAGE_SIZE - OffOf(addr) <= len
    ensures PageOf(addr + FirstPart(addr, len)) == PageOf(addr) + PAGE_SIZE
    ensures OffOf(addr + FirstPart(addr, len)) == 0
    ensures OffOf(addr + len) == len - FirstPart(addr, len)
  {
  }

  lemma WithinPage(addr: nat, len: nat)
    requires PageOf(addr) == PageOf(addr + len)
    ensures OffOf(addr) + len <= PAGE_SIZE
  {
  }

  /** Reading only appends to the log. */
  lemma OnePageLogs(c: Cache, addr: nat, buf: Bytes) returns (more: seq<Call>)
    requires WellFormed(c) && CanReadPage(c, addr, |buf|)
    ensures OnePage(c, addr, buf).0.log == c.log + more
  {
    more := OnePage(c, addr, buf).0.log[|c.log|..];
  }

  lemma GetTransparent(c: Cache, g: Reader, addr: nat, buf: Bytes)
    requires Sound(c, g) && c.f.Some? && RangeCoherent(g) && Servable(addr, |buf|)
    requires Answered(c.f.value, g, Get(c, addr, buf).0.log, |c.log|)
    ensures Get(c, addr, buf).1 == UncachedGet(g, addr, buf)
    ensures Sound(Get(c, addr, buf).0, g)
  {
    hide PageOf, OffOf, OnePage, Uncached, RangeCoherent, Answered;
    if PageOf(addr) == PageOf(addr + |buf|) {
      WithinPage(addr, |buf|);
      OnePageTransparent(c, g, addr, buf);
    } else {
      var n := FirstPart(addr, |buf|);
      NextPart(addr, |buf|);
      OnePageKeeps(c, addr, buf[..n]);
      var c1 := OnePage(c, addr, buf[..n]).0;
      var first := OnePageLogs(c, addr, buf[..n]);
      var second := OnePageLogs(c1, addr + n, buf[n..]);
      AnsweredFirst(c.f.value, g, c1.log, |c.log|, |c1.log|, second);
      OnePageTransparent(c, g, addr, buf[..n]);
      OnePageTransparent(c1, g, addr + n, buf[n..]);
    }
  }

  // ---- Transparency over every history ---------------------------------------------

  /** Reads happen while a reader is installed, and its calls are answered as g answers them. */
  ghost predicate RunAnswered(g: Reader, c: Cache, ops: seq<Op>)
    requires WellFormed(c) && c.lastPage == 0 && ServableOps(ops)
    decreases |ops|
  {
    ops != [] ==>
      && (ops[0].Read? ==> c.f.Some? && Answered(c.f.value, g, Step(c, ops[0]).0.log, |c.log|))
      && RunAnswered(g, Step(c, ops[0]).0, ops[1..])
  }

  ghost function UncachedRun(f: Reader, ops: seq<Op>): seq<ReadResult>
    requires ServableOps(ops)
  {
    if ops == [] then [] else
      (if ops[0].Read? then [UncachedGet(f, ops[0].addr, ops[0].buf)] else []) + UncachedRun(f, ops[1..])
  }

  lemma StepTransparent(c: Cache, g: Reader, op: Op)
    requires Sound(c, g) && RangeCoherent(g)
    requires op.Read? ==>
      Servable(op.addr, |op.buf|) && c.f.Some? && Answered(c.f.value, g, Step(c, op).0.log, |c.log|)
    ensures Sound(Step(c, op).0, g)
    ensures Step(c, op).1 == if op.Read? then [UncachedGet(g, op.addr, op.buf)] else []
  {
    hide Answered, RangeCoherent, Get, UncachedGet;
    if op.Read? {
      GetTransparent(c, g, op.addr, op.buf);
    }
  }

  lemma {:induction false} RunTransparent(c: Cache, g: Reader, ops: seq<Op>)
    requires Sound(c, g) && RangeCoherent(g) && ServableOps(ops) && RunAnswered(g, c, ops)
    ensures Run(c, ops).1 == UncachedRun(g, ops)
    ensures Sound(Run(c, ops).0, g)
    decreases |ops|
  {
    hide Answered, RangeCoherent, Sound;
    if ops != [] {
      SoundIsWellFormed(c, g);
      StepTransparent(c, g, ops[0]);
      RunTransparent(Step(c, ops[0]).0, g, ops[1..]);
    }
  }

  lemma SoundIsWellFormed(c: Cache, g: Reader)
    requires Sound(c, g)
    ensures WellFormed(c) && c.lastPage == 0
  {
  }

  lemma EmptyIsSound(g: Reader)
    ensures Sound(EMPTY, g)
  {
  }

  /**
   * Over every history of reads, installs and clears, with readers that may change and
   * fail: if the calls the cache really made were answered as g answers them, each read
   * returns what the uncached read of g, split at the page boundary, returns.
   */
  lemma AnsweredCallsSuffice(g: Reader, ops: seq<Op>)
    requires RangeCoherent(g) && ServableOps(ops) && RunAnswered(g, EMPTY, ops)
    ensures Run(EMPTY, ops).1 == UncachedRun(g, ops)
  {
    EmptyIsSound(g);
    RunTransparent(EMPTY, g, ops);
  }

  /** Installs always bring f, and reads happen only while it is installed. */
  ghost predicate History(f: Reader, installed: bool, ops: seq<Op>)
    decreases |ops|
  {
    ops != [] ==>
      match ops[0]
      case Clear => History(f, false, ops[1..])
      case Install(g) => g == f && History(f, true, ops[1..])
      case Read(_, _) => installed && History(f, true, ops[1..])
  }

  lemma PageIsPage(addr: nat)
    ensures IsPage(PageOf(addr)) && OffOf(PageOf(addr)) == 0
  {
  }

  /** A steady reader answers every call of a read within a page as it answers it first. */
  lemma OnePageSteady(c: Cache, f: Reader, addr: nat, buf: Bytes)
    requires WellFormed(c) && CanReadPage(c, addr, |buf|) && c.f == Some(f) && Steady(f)
    ensures Answered(f, f, OnePage(c, addr, buf).0.log, |c.log|)
  {
    hide PageOf, OffOf, Item;
    PageIsPage(addr);
    var log := OnePage(c, addr, buf).0.log;
    forall k | |c.log| <= k < |log| ensures AnsweredAs(f, f, k, log[k]) {
      assert SteadyAt(f, k, PageOf(addr), Zeros(PAGE_SIZE));
      forall b: Bytes | |b| == |buf| ensures f(k, addr, b) == f(0, addr, b) {
        assert SteadyAt(f, k, addr, b);
      }
    }
  }

  lemma AnsweredBoth(f: Reader, g: Reader, log: seq<Call>, from: nat, more: seq<Call>)
    requires Answered(f, g, log, from) && Answered(f, g, log + more, |log|)
    ensures Answered(f, g, log + more, from)
  {
    assert forall k :: from <= k < |log| ==> (log + more)[k] == log[k];
  }

  lemma GetSteady(c: Cache, f: Reader, addr: nat, buf: Bytes)
    requires WellFormed(c) && c.lastPage == 0 && Servable(addr, |buf|) && c.f == Some(f) && Steady(f)
    ensures Answered(f, f, Get(c, addr, buf).0.log, |c.log|)
  {
    hide PageOf, OffOf, OnePage, Steady, Answered;
    if PageOf(addr) == PageOf(addr + |buf|) {
      WithinPage(addr, |buf|);
      OnePageSteady(c, f, addr, buf);
    } else {
      var n := FirstPart(addr, |buf|);
      NextPart(addr, |buf|);
      OnePageKeeps(c, addr, buf[..n]);
      var c1 := OnePage(c, addr, buf[..n]).0;
      OnePageSteady(c, f, addr, buf[..n]);
      OnePageSteady(c1, f, addr + n, buf[n..]);
      var second := OnePageLogs(c1, addr + n, buf[n..]);
      AnsweredBoth(f, f, c1.log, |c.log|, second);
    }
  }

  lemma {:induction false} SteadyRun(f: Reader, c: Cache, ops: seq<Op>)
    requires Steady(f) && WellFormed(c) && c.lastPage == 0 && ServableOps(ops)
    requires History(f, c.f.Some?, ops) && (c.f.Some? ==> c.f.value == f)
    ensures RunAnswered(f, c, ops)
    decreases |ops|
  {
    hide Steady, Answered, Get;
    if ops != [] {
      if ops[0].Read? {
        GetKeeps(c, ops[0].addr, ops[0].buf);
        GetSteady(c, f, ops[0].addr, ops[0].buf);
      }
      SteadyRun(f, Step(c, ops[0]).0, ops[1..]);
    }
  }

  /** In particular, with a reader whose answers do not change. */
  lemma CacheIsTransparent(f: Reader, ops: seq<Op>)
    requires Steady(f) && RangeCoherent(f) && ServableOps(ops) && History(f, false, ops)
    ensures Run(EMPTY, ops).1 == UncachedRun(f, ops)
  {
    SteadyRun(f, EMPTY, ops);
    AnsweredCallsSuffice(f, ops);
  }

  // ---- What the returned count means -------------------------------------------------

  /** A return equal to the requested length means the buffer is memory. */
  lemma FullCountIsMemory(f: Reader, mem: nat -> byte, addr: nat, buf: Bytes)
    requires Faithful(f, mem) && OffOf(addr) + |buf| < 2 * PAGE_SIZE
    requires UncachedGet(f, addr, buf).count == |buf|
    ensures IsMemory(mem, addr, UncachedGet(f, addr, buf).data)
  {
    hide PageOf, OffOf;
    if PageOf(addr) == PageOf(addr + |buf|) {
      WithinPage(addr, |buf|);
      assert FaithfulAt(f, mem, addr, buf);
    } else {
      var n := FirstPart(addr, |buf|);
      NextPart(addr, |buf|);
      assert FaithfulAt(f, mem, addr, buf[..n]) && FaithfulAt(f, mem, addr + n, buf[n..]);
      MemoryJoins(mem, addr, Uncached(f, addr, buf[..n]).data, Uncached(f, addr + n, buf[n..]).data);
    }
  }

  lemma MemoryJoins(mem: nat -> byte, a: nat, x: Bytes, y: Bytes)
    requires IsMemory(mem, a, x) && IsMemory(mem, a + |x|, y)
    ensures IsMemory(mem, a, x + y)
  {
    forall i | 0 <= i < |x + y| ensures (x + y)[i] == mem(a + i) {
      if i >= |x| {
        assert y[i - |x|] == mem((a + |x|) + (i - |x|));
      }
    }
  }

  /** Each read of a history that returned its full length left memory in its buffer. */
  ghost predicate FullReadsAreMemory(mem: nat -> byte, ops: seq<Op>, out: seq<ReadResult>)
    decreases |ops|
  {
    ops != [] ==>
      if !ops[0].Read? then FullReadsAreMemory(mem, ops[1..], out)
      else
        && out != [] && FullReadsAreMemory(mem, ops[1..], out[1..])
        && |out[0].data| == |ops[0].buf|
        && (out[0].count == |ops[0].buf| ==> IsMemory(mem, ops[0].addr, out[0].data))
  }

  lemma {:induction false} UncachedFullReads(f: Reader, mem: nat -> byte, ops: seq<Op>)
    requires Faithful(f, mem) && ServableOps(ops)
    ensures FullReadsAreMemory(mem, ops, UncachedRun(f, ops))
    decreases |ops|
  {
    hide Faithful, UncachedGet, IsMemory;
    if ops != [] {
      UncachedFullReads(f, mem, ops[1..]);
      if ops[0].Read? {
        if UncachedGet(f, ops[0].addr, ops[0].buf).count == |ops[0].buf| {
          FullCountIsMemory(f, mem, ops[0].addr, ops[0].buf);
        }
        UncachedSize(f, ops[0].addr, ops[0].buf);
        assert UncachedRun(f, ops)[1..] == UncachedRun(f, ops[1..]);
      } else {
        assert UncachedRun(f, ops) == UncachedRun(f, ops[1..]);
      }
    }
  }

  lemma UncachedSize(f: Reader, addr: nat, buf: Bytes)
    requires OffOf(addr) + |buf| < 2 * PAGE_SIZE
    ensures |UncachedGet(f, addr, buf).data| == |buf|
  {
  }

  /**
   * Over every history through the cache whose calls were answered as a faithful g
   * answers them, a return equal to the requested length means the buffer is memory.
   */
  lemma FullReadsThroughCache(g: Reader, mem: nat -> byte, ops: seq<Op>)
    requires RangeCoherent(g) && Faithful(g, mem) && ServableOps(ops) && RunAnswered(g, EMPTY, ops)
    ensures FullReadsAreMemory(mem, ops, Run(EMPTY, ops).1)
  {
    hide RangeCoherent, Faithful, FullReadsAreMemory, Run, UncachedRun, RunAnswered;
    AnsweredCallsSuffice(g, ops);
    UncachedFullReads(g, mem, ops);
  }

  // ---- When the count is the length of a prefix -----------------------------------------

  /** The first `count` bytes left in the buffer are memory. */
  ghost predicate PrefixIsMemory(mem: nat -> byte, addr: nat, r: ReadResult) {
    r.count <= |r.data| && IsMemory(mem, addr, r.data[..r.count])
  }

  /** A call of get_content: a sound cache over a reader that is steady, coherent and faithful. */
  ghost predicate GoodCall(f: Reader, mem: nat -> byte, c: Cache) {
    Steady(f) && RangeCoherent(f) && Faithful(f, mem) && Sound(c, f) && c.f == Some(f)
  }

  /** Whatever the memory, the reader and the cache, a read of len bytes at addr returns a prefix length. */
  ghost predicate CountsPrefix(addr: nat, len: nat)
    requires Servable(addr, len)
  {
    forall f: Reader, mem: nat -> byte, c: Cache, buf: Bytes ::
      |buf| == len && GoodCall(f, mem, c) ==> PrefixIsMemory(mem, addr, Get(c, addr, buf).1)
  }

  lemma GoodCallIsUncached(f: Reader, mem: nat -> byte, c: Cache, addr: nat, buf: Bytes)
    requires GoodCall(f, mem, c) && Servable(addr, |buf|)
    ensures Get(c, addr, buf).1 == UncachedGet(f, addr, buf)
  {
    GetSteady(c, f, addr, buf);
    GetTransparent(c, f, addr, buf);
  }

  lemma PartIsPrefix(f: Reader, mem: nat -> byte, addr: nat, buf: Bytes)
    requires Faithful(f, mem) && OffOf(addr) + |buf| <= PAGE_SIZE
    ensures PrefixIsMemory(mem, addr, Uncached(f, addr, buf))
  {
    hide PageOf, OffOf;
    assert FaithfulAt(f, mem, addr, buf);
    var r := Uncached(f, addr, buf);
    assert r.count == |buf| ==> r.data[..r.count] == r.data;
  }

  lemma OneReadCountsPrefix(f: Reader, mem: nat -> byte, addr: nat, buf: Bytes)
    requires Faithful(f, mem) && Servable(addr, |buf|)
    requires PageOf(addr) == PageOf(addr + |buf|) || OffOf(addr + |buf|) == 0
    ensures PrefixIsMemory(mem, addr, UncachedGet(f, addr, buf))
  {
    hide PageOf, OffOf, Faithful, PrefixIsMemory;
    if PageOf(addr) == PageOf(addr + |buf|) {
      WithinPage(addr, |buf|);
      PartIsPrefix(f, mem, addr, buf);
    } else {
      NextPart(addr, |buf|);
      assert FirstPart(addr, |buf|) == |buf| && buf[..|buf|] == buf && buf[|buf|..] == [];
      var r1, r2 := Uncached(f, addr, buf), Uncached(f, addr + |buf|, []);
      assert r1.data + r2.data == r1.data && r2.count == 0;
      PartIsPrefix(f, mem, addr, buf);
    }
  }

  function Sevens(len: nat): (s: Bytes)
    ensures |s| == len && forall i :: 0 <= i < len ==> s[i] == 7
  {
    seq(len, i => 7)
  }

  /** Memory full of sevens, readable from `limit` on. */
  function ReadableFromAt(limit: nat, a: nat, b: Bytes): (r: ReadResult)
    ensures |r.data| == |b|
  {
    if a >= limit then ReadResult(Sevens(|b|), |b|) else ReadResult(b, 0)
  }

  ghost function ReadableFrom(limit: nat): Reader {
    (k: nat, a: nat, b: Bytes) => ReadableFromAt(limit, a, b)
  }

  lemma ReadableFromIsMemory(limit: nat, mem: nat -> byte)
    requires IsPage(limit) && forall a :: mem(a) == 7
    ensures var f := ReadableFrom(limit); GoodCall(f, mem, EMPTY.(f := Some(f)))
  {
    var f := ReadableFrom(limit);
    assert Steady(f);
    forall a, b ensures CoherentAt(f, a, b) {
      if OffOf(a) + |b| <= PAGE_SIZE && PageOf(a) >= limit {
        assert Sevens(PAGE_SIZE)[OffOf(a)..OffOf(a) + |b|] == Sevens(|b|);
      }
    }
    assert Faithful(f, mem);
  }

  /** When the first page cannot be read and the second can, the count is not a prefix length. */
  lemma SecondPartOnly(addr: nat, len: nat)
    requires Servable(addr, len) && PageOf(addr) != PageOf(addr + len) && OffOf(addr + len) != 0
    ensures !CountsPrefix(addr, len)
  {
    var n := FirstPart(addr, len);
    NextPart(addr, len);
    var limit := addr + n;
    assert IsPage(limit);
    var mem: nat -> byte := a => 7;
    var f := ReadableFrom(limit);
    var c := EMPTY.(f := Some(f));
    var buf := Zeros(len);
    ReadableFromIsMemory(limit, mem);
    GoodCallIsUncached(f, mem, c, addr, buf);
    hide PageOf, OffOf, GoodCall, Get;
    var r := UncachedGet(f, addr, buf);
    assert Uncached(f, addr, buf[..n]) == ReadResult(buf[..n], 0);
    assert Uncached(f, addr + n, buf[n..]) == ReadResult(Sevens(len - n), len - n);
    assert r.count == len - n > 0 && r.data[0] == 0;
    assert r.data[..r.count][0] != mem(addr + 0);
  }

  /**
   * get_content returns the length of a prefix it read, for every memory, reader and
   * cache, exactly for reads that stay in one page or end where the second begins.
   */
  lemma CountIsPrefixIff(addr: nat, len: nat)
    requires Servable(addr, len)
    ensures CountsPrefix(addr, len) <==> PageOf(addr) == PageOf(addr + len) || OffOf(addr + len) == 0
  {
    if PageOf(addr) == PageOf(addr + len) || OffOf(addr + len) == 0 {
      hide PageOf, OffOf, Get, UncachedGet, Steady, RangeCoherent, Sound;
      forall f: Reader, mem: nat -> byte, c: Cache, buf: Bytes | |buf| == len && GoodCall(f, mem, c)
        ensures PrefixIsMemory(mem, addr, Get(c, addr, buf).1)
      {
        GoodCallIsUncached(f, mem, c, addr, buf);
        OneReadCountsPrefix(f, mem, addr, buf);
      }
    } else {
      SecondPartOnly(addr, len);
    }
  }
}

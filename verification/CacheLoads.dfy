// How often the cache calls its reader, what the remote path asks the server for,
// and the two cases in which a read does not return memory.
module CacheLoads {
  import opened Basics
  import opened CountMaps
  import opened PageCache
  import opened CacheTransparency

  // ---- Page zero --------------------------------------------------------------------

  /** For every memory and cache state, a read of len bytes at addr is the uncached read. */
  ghost predicate TransparentAt(addr: nat, len: nat)
    requires OffOf(addr) + len <= PAGE_SIZE
  {
    forall f: Reader, c: Cache, buf: Bytes ::
      |buf| == len && Sound(c, f) && c.f == Some(f) && Steady(f) && RangeCoherent(f) && c.lastContent.Some? ==>
        OnePage(c, addr, buf).1 == Uncached(f, addr, buf)
  }

  function Fill(len: nat, x: byte): (s: Bytes)
    ensures |s| == len
  {
    seq(len, i => x)
  }

  /** Readable everywhere: nines in page zero, sevens elsewhere. */
  function NinesThenSevensAt(k: nat, a: nat, b: Bytes): ReadResult {
    ReadResult(Fill(|b|, if a >= 4096 then 7 else 9), |b|)
  }

  ghost function NinesThenSevens(): Reader {
    NinesThenSevensAt
  }

  lemma FillSlice(len: nat, x: byte, lo: nat, hi: nat)
    requires lo <= hi <= len
    ensures Fill(len, x)[lo..hi] == Fill(hi - lo, x)
  {
  }

  lemma SamePageSameFill(a: nat, len: nat)
    requires OffOf(a) + len <= PAGE_SIZE
    ensures a >= 4096 <==> PageOf(a) >= 4096
    ensures forall x :: Fill(len, x) == Fill(PAGE_SIZE, x)[OffOf(a)..OffOf(a) + len]
  {
    forall x ensures Fill(len, x) == Fill(PAGE_SIZE, x)[OffOf(a)..OffOf(a) + len] {
      FillSlice(PAGE_SIZE, x, OffOf(a), OffOf(a) + len);
    }
  }

  lemma NinesThenSevensIsMemory()
    ensures Steady(NinesThenSevens()) && RangeCoherent(NinesThenSevens())
  {
    hide PageOf, OffOf, Fill;
    var f := NinesThenSevens();
    assert Steady(f);
    forall a, b ensures CoherentAt(f, a, b) {
      if OffOf(a) + |b| <= PAGE_SIZE {
        SamePageSameFill(a, |b|);
      }
    }
  }

  /** A cache whose only page, of sevens, was loaded last. */
  ghost function PageOfSevens(): Cache {
    Cache(map[4096 := Fill(PAGE_SIZE, 7)], 0, Some(4096), Some(NinesThenSevens()), [Load(4096, true)])
  }

  lemma PageOfSevensIsSound()
    ensures Sound(PageOfSevens(), NinesThenSevens())
  {
    assert NinesThenSevensAt(0, 4096, Zeros(PAGE_SIZE)) == ReadResult(Fill(PAGE_SIZE, 7), PAGE_SIZE);
  }

  lemma PageZeroReadsSevens(addr: nat, len: nat)
    requires 0 < len && OffOf(addr) + len <= PAGE_SIZE && PageOf(addr) == 0
    ensures OnePage(PageOfSevens(), addr, Zeros(len)).1.data[0] == 7
    ensures Uncached(NinesThenSevens(), addr, Zeros(len)).data[0] == 9
  {
    assert addr < 4096;
    assert NinesThenSevensAt(0, addr, Zeros(len)).data[0] == 9;
  }

  lemma PageZeroIsWrong(addr: nat, len: nat)
    requires 0 < len && OffOf(addr) + len <= PAGE_SIZE && PageOf(addr) == 0
    ensures !TransparentAt(addr, len)
  {
    NinesThenSevensIsMemory();
    PageOfSevensIsSound();
    PageZeroReadsSevens(addr, len);
    var f, c, buf := NinesThenSevens(), PageOfSevens(), Zeros(len);
    hide Steady, RangeCoherent, Sound, PageOf, OffOf, OnePage, Uncached;
    assert OnePage(c, addr, buf).1 != Uncached(f, addr, buf);
  }

  /** Reads within a page are transparent exactly outside page zero. */
  lemma TransparentIffNotPageZero(addr: nat, len: nat)
    requires 0 < len && OffOf(addr) + len <= PAGE_SIZE
    ensures TransparentAt(addr, len) <==> PageOf(addr) != 0
  {
    if PageOf(addr) == 0 {
      PageZeroIsWrong(addr, len);
    } else {
      forall f: Reader, c: Cache, buf: Bytes
        | |buf| == len && Sound(c, f) && c.f == Some(f) && Steady(f) && RangeCoherent(f) && c.lastContent.Some?
        ensures OnePage(c, addr, buf).1 == Uncached(f, addr, buf)
      {
        OnePageSteady(c, f, addr, buf);
        OnePageTransparent(c, f, addr, buf);
      }
    }
  }

  /** A read that crosses a page boundary is two reads, each within a non-zero page. */
  lemma GetIsTwoReads(c: Cache, addr: nat, buf: Bytes) returns (n: nat, c1: Cache)
    requires WellFormed(c) && c.lastPage == 0 && Servable(addr, |buf|) && PageOf(addr) != PageOf(addr + |buf|)
    ensures n <= |buf| && OffOf(addr) + n <= PAGE_SIZE
    ensures PageOf(addr + n) != 0 && OffOf(addr + n) + |buf[n..]| <= PAGE_SIZE
    ensures c1 == OnePage(c, addr, buf[..n]).0 && WellFormed(c1) && c1.lastPage == 0
    ensures Get(c, addr, buf).0 == OnePage(c1, addr + n, buf[n..]).0
  {
    hide PageOf, OffOf, OnePage;
    NextPart(addr, |buf|);
    n := FirstPart(addr, |buf|);
    OnePageKeeps(c, addr, buf[..n]);
    c1 := OnePage(c, addr, buf[..n]).0;
  }

  /** Between a clear and the next install, a read finds nothing and says so. */
  lemma NothingWithoutReader(addr: nat, buf: Bytes)
    requires Servable(addr, |buf|)
    ensures CanGet(EMPTY, addr, |buf|) && Get(EMPTY, addr, buf) == (EMPTY, ReadResult(buf, 0))
  {
    if PageOf(addr) != PageOf(addr + |buf|) {
      NextPart(addr, |buf|);
      var n := FirstPart(addr, |buf|);
      assert buf[..n] + buf[n..] == buf;
    }
  }

  // ---- Loads, for any reader, even one whose answers change ----------------------------

  /** The pages loaded successfully since the cache was cleared, with repetitions. */
  ghost function Loaded(log: seq<Call>): multiset<nat> {
    if log == [] then multiset{} else
      var last := log[|log| - 1];
      Loaded(log[..|log| - 1]) + if last.Load? && last.ok then multiset{last.page} else multiset{}
  }

  lemma LoadedSnoc(log: seq<Call>, call: Call)
    ensures Loaded(log + [call]) == Loaded(log) + if call.Load? && call.ok then multiset{call.page} else multiset{}
  {
    assert (log + [call])[..|log|] == log;
  }

  /** The cached pages are the pages loaded, each loaded once; none is page zero. */
  ghost predicate Accounted(c: Cache) {
    && WellFormed(c) && c.lastPage == 0
    && Loaded(c.log) == multiset(c.pages.Keys)
    && (forall p :: p in c.pages ==> IsPage(p) && p != 0)
  }

  lemma KeysAdd(m: map<nat, Bytes>, p: nat, v: Bytes)
    requires p !in m
    ensures multiset(m[p := v].Keys) == multiset(m.Keys) + multiset{p}
  {
    assert m[p := v].Keys == m.Keys + {p};
  }

  lemma LoadAccounted(c: Cache, p: nat, content: Bytes)
    requires Accounted(c) && IsPage(p) && p != 0 && p !in c.pages && |content| == PAGE_SIZE
    ensures Accounted(c.(log := c.log + [Load(p, true)], pages := c.pages[p := content], lastContent := Some(p)))
  {
    LoadedSnoc(c.log, Load(p, true));
    KeysAdd(c.pages, p, content);
  }

  lemma DirectAccounted(c: Cache, p: nat, addr: nat, len: nat)
    requires Accounted(c)
    ensures Accounted(c.(log := c.log + [Load(p, false), Direct(addr, len)]))
  {
    LoadedSnoc(c.log, Load(p, false));
    LoadedSnoc(c.log + [Load(p, false)], Direct(addr, len));
    assert c.log + [Load(p, false)] + [Direct(addr, len)] == c.log + [Load(p, false), Direct(addr, len)];
  }

  lemma OnePageAccounted(c: Cache, addr: nat, buf: Bytes)
    requires Accounted(c) && PageOf(addr) != 0 && OffOf(addr) + |buf| <= PAGE_SIZE
    ensures Accounted(OnePage(c, addr, buf).0)
  {
    var p := PageOf(addr);
    if p !in c.pages && c.f.Some? {
      LocIsInjective(addr, addr);
      hide Accounted, PageOf, OffOf, Item;
      var r := c.f.value(|c.log|, p, Zeros(PAGE_SIZE));
      if r.count == PAGE_SIZE {
        LoadAccounted(c, p, r.data);
      } else {
        DirectAccounted(c, p, addr, |buf|);
      }
    }
  }

  lemma GetAccounted(c: Cache, addr: nat, buf: Bytes)
    requires Accounted(c) && Servable(addr, |buf|)
    ensures Accounted(Get(c, addr, buf).0)
  {
    hide OnePage, PageOf, OffOf;
    if PageOf(addr) == PageOf(addr + |buf|) {
      WithinPage(addr, |buf|);
      OnePageAccounted(c, addr, buf);
    } else {
      var n, c1 := GetIsTwoReads(c, addr, buf);
      hide Get;
      OnePageAccounted(c, addr, buf[..n]);
      OnePageAccounted(c1, addr + n, buf[n..]);
    }
  }

  lemma StepAccounted(c: Cache, op: Op)
    requires Accounted(c) && (op.Read? ==> Servable(op.addr, |op.buf|))
    ensures Accounted(Step(c, op).0)
  {
    hide Get;
    if op.Read? {
      GetAccounted(c, op.addr, op.buf);
    }
  }

  lemma {:induction false} RunAccounted(c: Cache, ops: seq<Op>)
    requires Accounted(c) && ServableOps(ops)
    ensures Accounted(Run(c, ops).0)
    decreases |ops|
  {
    if ops != [] {
      StepAccounted(c, ops[0]);
      RunAccounted(Step(c, ops[0]).0, ops[1..]);
    }
  }

  /**
   * In every run: between clears the cache holds exactly the pages it loaded, no
   * page is loaded twice, and last_page is still 0.
   */
  lemma NoPageIsLoadedTwice(ops: seq<Op>)
    requires ServableOps(ops)
    ensures var c := Run(EMPTY, ops).0;
      && c.lastPage == 0 && Loaded(c.log) == multiset(c.pages.Keys)
      && |Loaded(c.log)| == |c.pages| && forall p :: Loaded(c.log)[p] <= 1
  {
    RunAccounted(EMPTY, ops);
  }

  // ---- What the raw pointer points to ---------------------------------------------------

  /** The page of the last load that succeeded. */
  ghost function LastLoaded(log: seq<Call>): Option<nat> {
    if log == [] then None
    else if log[|log| - 1].Load? && log[|log| - 1].ok then Some(log[|log| - 1].page)
    else LastLoaded(log[..|log| - 1])
  }

  lemma LastLoadedSnoc(log: seq<Call>, call: Call)
    ensures LastLoaded(log + [call]) == if call.Load? && call.ok then Some(call.page) else LastLoaded(log)
  {
    assert (log + [call])[..|log|] == log;
  }

  lemma OnePagePoints(c: Cache, addr: nat, buf: Bytes)
    requires WellFormed(c) && CanReadPage(c, addr, |buf|) && c.lastContent == LastLoaded(c.log)
    ensures OnePage(c, addr, buf).0.lastContent == LastLoaded(OnePage(c, addr, buf).0.log)
  {
    hide PageOf, OffOf, Item, LastLoaded;
    var p := PageOf(addr);
    LastLoadedSnoc(c.log, Load(p, true));
    LastLoadedSnoc(c.log, Load(p, false));
    LastLoadedSnoc(c.log + [Load(p, false)], Direct(addr, |buf|));
    assert c.log + [Load(p, false)] + [Direct(addr, |buf|)] == c.log + [Load(p, false), Direct(addr, |buf|)];
  }

  lemma GetPoints(c: Cache, addr: nat, buf: Bytes)
    requires WellFormed(c) && c.lastPage == 0 && Servable(addr, |buf|) && c.lastContent == LastLoaded(c.log)
    ensures Get(c, addr, buf).0.lastContent == LastLoaded(Get(c, addr, buf).0.log)
  {
    hide OnePage, PageOf, OffOf, LastLoaded;
    if PageOf(addr) == PageOf(addr + |buf|) {
      WithinPage(addr, |buf|);
      OnePagePoints(c, addr, buf);
    } else {
      var n, c1 := GetIsTwoReads(c, addr, buf);
      hide Get;
      OnePagePoints(c, addr, buf[..n]);
      OnePagePoints(c1, addr + n, buf[n..]);
    }
  }

  lemma {:induction false} RunPoints(c: Cache, ops: seq<Op>)
    requires WellFormed(c) && c.lastPage == 0 && ServableOps(ops) && c.lastContent == LastLoaded(c.log)
    ensures Run(c, ops).0.lastContent == LastLoaded(Run(c, ops).0.log)
    decreases |ops|
  {
    hide Get;
    if ops != [] {
      if ops[0].Read? {
        GetPoints(c, ops[0].addr, ops[0].buf);
      }
      RunPoints(Step(c, ops[0]).0, ops[1..]);
    }
  }

  /** After every history, a read in page zero returns bytes of the page that was loaded last. */
  lemma PageZeroIsLastLoad(ops: seq<Op>, addr: nat, buf: Bytes)
    requires ServableOps(ops) && PageOf(addr) == 0 && OffOf(addr) + |buf| <= PAGE_SIZE
    requires LastLoaded(Run(EMPTY, ops).0.log).Some?
    ensures var c, p := Run(EMPTY, ops).0, LastLoaded(Run(EMPTY, ops).0.log).value;
      && WellFormed(c) && CanReadPage(c, addr, |buf|) && p in c.pages
      && OnePage(c, addr, buf) == (c, ReadResult(c.pages[p][OffOf(addr)..OffOf(addr) + |buf|], |buf|))
  {
    hide Run, LastLoaded;
    assert EMPTY.lastContent == LastLoaded(EMPTY.log) by {
      NothingLoadedYet();
    }
    RunPoints(EMPTY, ops);
    RunWellFormed(EMPTY, ops);
  }

  lemma NothingLoadedYet()
    ensures LastLoaded([]) == None
  {
  }

  // ---- The remote path ---------------------------------------------------------------------

  /** The remote callback reports full length whatever happened. */
  ghost predicate AlwaysFull(f: Reader) {
    forall k, a, b :: f(k, a, b).count == |b|
  }

  ghost predicate RemoteOps(ops: seq<Op>) {
    forall i :: 0 <= i < |ops| && ops[i].Install? ==> AlwaysFull(ops[i].f)
  }

  ghost predicate OnlyLoads(c: Cache) {
    && Accounted(c) && (c.f.Some? ==> AlwaysFull(c.f.value))
    && forall i :: 0 <= i < |c.log| ==> c.log[i].Load? && c.log[i].ok && IsPage(c.log[i].page) && c.log[i].page != 0
  }

  lemma OnePageOnlyLoads(c: Cache, addr: nat, buf: Bytes)
    requires OnlyLoads(c) && PageOf(addr) != 0 && OffOf(addr) + |buf| <= PAGE_SIZE
    ensures OnlyLoads(OnePage(c, addr, buf).0)
  {
    OnePageAccounted(c, addr, buf);
    LocIsInjective(addr, addr);
    AccountedIsWellFormed(c);
    hide PageOf, OffOf, Accounted, Item;
    if PageOf(addr) !in c.pages && c.f.Some? {
      assert c.f.value(|c.log|, PageOf(addr), Zeros(PAGE_SIZE)).count == PAGE_SIZE;
    }
  }

  lemma AccountedIsWellFormed(c: Cache)
    requires Accounted(c)
    ensures WellFormed(c) && c.lastPage == 0
  {
  }

  lemma GetOnlyLoads(c: Cache, addr: nat, buf: Bytes)
    requires OnlyLoads(c) && Servable(addr, |buf|)
    ensures OnlyLoads(Get(c, addr, buf).0)
  {
    hide OnePage, PageOf, OffOf;
    if PageOf(addr) == PageOf(addr + |buf|) {
      WithinPage(addr, |buf|);
      OnePageOnlyLoads(c, addr, buf);
    } else {
      var n, c1 := GetIsTwoReads(c, addr, buf);
      hide Get, OnlyLoads;
      OnePageOnlyLoads(c, addr, buf[..n]);
      OnePageOnlyLoads(c1, addr + n, buf[n..]);
    }
  }

  lemma StepOnlyLoads(c: Cache, op: Op)
    requires OnlyLoads(c) && (op.Read? ==> Servable(op.addr, |op.buf|)) && (op.Install? ==> AlwaysFull(op.f))
    ensures OnlyLoads(Step(c, op).0)
  {
    hide Get;
    if op.Read? {
      GetOnlyLoads(c, op.addr, op.buf);
    }
  }

  lemma {:induction false} RunOnlyLoads(c: Cache, ops: seq<Op>)
    requires OnlyLoads(c) && ServableOps(ops) && RemoteOps(ops)
    ensures OnlyLoads(Run(c, ops).0)
    decreases |ops|
  {
    if ops != [] {
      assert ops[0].Install? ==> AlwaysFull(ops[0].f);
      StepOnlyLoads(c, ops[0]);
      assert RemoteOps(ops[1..]);
      RunOnlyLoads(Step(c, ops[0]).0, ops[1..]);
    }
  }

  lemma {:induction false} LoadedIncludes(log: seq<Call>, i: nat)
    requires i < |log| && log[i].Load? && log[i].ok
    ensures Loaded(log)[log[i].page] >= 1
  {
    if i < |log| - 1 {
      LoadedIncludes(log[..|log| - 1], i);
    }
  }

  lemma {:induction false} LoadedTwice(log: seq<Call>, i: nat, j: nat)
    requires i < j < |log| && log[i].Load? && log[i].ok && log[j].Load? && log[j].ok && log[i].page == log[j].page
    ensures Loaded(log)[log[i].page] >= 2
  {
    if j < |log| - 1 {
      LoadedTwice(log[..|log| - 1], i, j);
    } else {
      LoadedIncludes(log[..|log| - 1], i);
    }
  }

  /**
   * On the remote path every request the cache makes is for a whole non-zero page,
   * and for any page at most once between clears.
   */
  lemma RemoteRequests(ops: seq<Op>)
    requires ServableOps(ops) && RemoteOps(ops)
    ensures var log := Run(EMPTY, ops).0.log;
      && (forall i :: 0 <= i < |log| ==> log[i].Load? && log[i].ok && IsPage(log[i].page) && log[i].page != 0)
      && (forall i, j :: 0 <= i < j < |log| ==> log[i].page != log[j].page)
  {
    RunOnlyLoads(EMPTY, ops);
    var c := Run(EMPTY, ops).0;
    forall i, j | 0 <= i < j < |c.log| ensures c.log[i].page != c.log[j].page {
      assert Loaded(c.log)[c.log[i].page] == multiset(c.pages.Keys)[c.log[i].page] <= 1;
      if c.log[i].page == c.log[j].page {
        LoadedTwice(c.log, i, j);
      }
    }
  }

  // ---- What the remote path caches --------------------------------------------------------

  /** reply(k, a, len): what call k, asking for len bytes at a, is answered with; None when released empty. */
  type Replies = r: (nat, nat, nat) -> Option<Bytes> | ReplySizes(r) witness (k, a, len) => None

  ghost predicate ReplySizes(r: (nat, nat, nat) -> Option<Bytes>) {
    forall k, a, len :: r(k, a, len).Some? ==> |r(k, a, len).value| == 2 * PAGE_SIZE
  }

  /** read_mem under the callback: the reply's first bytes, or the buffer as it was; always full length. */
  function RemoteRead(r: Option<Bytes>, b: Bytes): (x: ReadResult)
    ensures |x.data| == |b| == x.count
  {
    if r.Some? && |b| <= |r.value| then ReadResult(r.value[..|b|], |b|) else ReadResult(b, |b|)
  }

  ghost function Remote(reply: Replies): Reader {
    (k: nat, a: nat, b: Bytes) => RemoteRead(reply(k, a, |b|), b)
  }

  /** What is left in the page buffer of load k: the reply's first bytes, or the zeros it began with. */
  function PageFrom(r: Option<Bytes>): (page: Bytes)
    requires r.Some? ==> |r.value| == 2 * PAGE_SIZE
    ensures |page| == PAGE_SIZE
  {
    if r.Some? then r.value[..PAGE_SIZE] else Zeros(PAGE_SIZE)
  }

  function Recall(mem: nat -> byte, a: nat, len: nat): (x: Bytes)
    ensures |x| == len && forall i :: 0 <= i < len ==> x[i] == mem(a + i)
  {
    seq(len, i requires 0 <= i => mem(a + i))
  }

  /** The reader that is memory itself. */
  ghost function Memory(mem: nat -> byte): Reader {
    (k: nat, a: nat, b: Bytes) => ReadResult(Recall(mem, a, |b|), |b|)
  }

  lemma MemoryIsRecalled(mem: nat -> byte, a: nat, data: Bytes)
    ensures IsMemory(mem, a, data) <==> data == Recall(mem, a, |data|)
  {
  }

  lemma MemoryIsGood(mem: nat -> byte)
    ensures Steady(Memory(mem)) && RangeCoherent(Memory(mem)) && Faithful(Memory(mem), mem)
  {
    var g := Memory(mem);
    assert Steady(g) && Faithful(g, mem);
    forall a, b ensures CoherentAt(g, a, b) {
      LocIsInjective(a, a);
      hide PageOf, OffOf;
      if OffOf(a) + |b| <= PAGE_SIZE {
        RecallSlice(mem, PageOf(a), OffOf(a), |b|);
      }
    }
  }

  lemma RecallSlice(mem: nat -> byte, p: nat, o: nat, len: nat)
    requires o + len <= PAGE_SIZE
    ensures Recall(mem, p, PAGE_SIZE)[o..o + len] == Recall(mem, p + o, len)
  {
  }

  /** Every request is answered, with memory. */
  ghost predicate RepliesAreMemory(reply: Replies, mem: nat -> byte) {
    forall k, a, len: nat :: len <= PAGE_SIZE ==>
      reply(k, a, len).Some? && IsMemory(mem, a, reply(k, a, len).value[..len])
  }

  /** The remote reader is steady, coherent and faithful when every request is answered with memory. */
  lemma RemoteIsGood(reply: Replies, mem: nat -> byte)
    requires RepliesAreMemory(reply, mem)
    ensures Steady(Remote(reply)) && RangeCoherent(Remote(reply)) && Faithful(Remote(reply), mem)
  {
    hide PageOf, OffOf;
    MemoryIsGood(mem);
    var f, g := Remote(reply), Memory(mem);
    forall k, a, b: Bytes ensures |b| <= PAGE_SIZE ==> f(k, a, b) == g(k, a, b) {
      if |b| <= PAGE_SIZE {
        MemoryIsRecalled(mem, a, reply(k, a, |b|).value[..|b|]);
      }
    }
    forall k, a, b ensures SteadyAt(f, k, a, b) {
    }
    forall a, b ensures CoherentAt(f, a, b) {
      assert CoherentAt(g, a, b);
    }
    forall a, b ensures FaithfulAt(f, mem, a, b) {
      assert FaithfulAt(g, mem, a, b);
    }
  }

  /** A load is answered as memory answers it exactly when it leaves memory in the page buffer. */
  lemma LoadAnsweredIff(reply: Replies, mem: nat -> byte, k: nat, p: nat, ok: bool)
    ensures AnsweredAs(Remote(reply), Memory(mem), k, Load(p, ok))
       <==> IsMemory(mem, p, PageFrom(reply(k, p, PAGE_SIZE)))
  {
    var f := Remote(reply);
    assert f(k, p, Zeros(PAGE_SIZE)) == ReadResult(PageFrom(reply(k, p, PAGE_SIZE)), PAGE_SIZE);
    MemoryIsRecalled(mem, p, PageFrom(reply(k, p, PAGE_SIZE)));
  }

  ghost predicate InstallsRemote(reply: Replies, ops: seq<Op>) {
    forall i :: 0 <= i < |ops| && ops[i].Install? ==> ops[i].f == Remote(reply)
  }

  /** Every load of the log left its page in the cache. */
  ghost predicate PagesFromReplies(c: Cache, reply: Replies) {
    && OnlyLoads(c) && (c.f.Some? ==> c.f.value == Remote(reply))
    && forall i :: 0 <= i < |c.log| ==> LoadStays(c, reply, i)
  }

  ghost predicate LoadStays(c: Cache, reply: Replies, i: nat)
    requires i < |c.log|
  {
    c.log[i].Load? && c.log[i].page in c.pages && c.pages[c.log[i].page] == PageFrom(reply(i, c.log[i].page, PAGE_SIZE))
  }

  lemma RemoteIsFull(reply: Replies)
    ensures AlwaysFull(Remote(reply))
  {
  }

  lemma OnePageFromReplies(c: Cache, reply: Replies, addr: nat, buf: Bytes)
    requires PagesFromReplies(c, reply) && PageOf(addr) != 0 && OffOf(addr) + |buf| <= PAGE_SIZE
    ensures PagesFromReplies(OnePage(c, addr, buf).0, reply)
  {
    OnePageOnlyLoads(c, addr, buf);
    hide PageOf, OffOf, OnlyLoads, Item;
    OnlyLoadsSays(c);
    var p, c1 := PageOf(addr), OnePage(c, addr, buf).0;
    if p !in c.pages && c.f.Some? {
      var f := Remote(reply);
      assert f(|c.log|, p, Zeros(PAGE_SIZE)) == ReadResult(PageFrom(reply(|c.log|, p, PAGE_SIZE)), PAGE_SIZE);
      forall i | 0 <= i < |c1.log| ensures LoadStays(c1, reply, i) {
        if i < |c.log| {
          assert LoadStays(c, reply, i);
        }
      }
    } else {
      forall i | 0 <= i < |c1.log| ensures LoadStays(c1, reply, i) {
        assert LoadStays(c, reply, i);
      }
    }
  }

  lemma OnlyLoadsSays(c: Cache)
    requires OnlyLoads(c)
    ensures WellFormed(c) && c.lastPage == 0
  {
  }

  lemma GetFromReplies(c: Cache, reply: Replies, addr: nat, buf: Bytes)
    requires PagesFromReplies(c, reply) && Servable(addr, |buf|)
    ensures PagesFromReplies(Get(c, addr, buf).0, reply)
  {
    hide OnePage, PageOf, OffOf;
    if PageOf(addr) == PageOf(addr + |buf|) {
      WithinPage(addr, |buf|);
      OnePageFromReplies(c, reply, addr, buf);
    } else {
      var n, c1 := GetIsTwoReads(c, addr, buf);
      hide Get, PagesFromReplies;
      OnePageFromReplies(c, reply, addr, buf[..n]);
      OnePageFromReplies(c1, reply, addr + n, buf[n..]);
    }
  }

  lemma {:induction false} RunFromReplies(c: Cache, reply: Replies, ops: seq<Op>)
    requires PagesFromReplies(c, reply) && ServableOps(ops) && InstallsRemote(reply, ops)
    ensures PagesFromReplies(Run(c, ops).0, reply)
    decreases |ops|
  {
    if ops != [] {
      hide Get;
      RemoteIsFull(reply);
      if ops[0].Read? {
        GetFromReplies(c, reply, ops[0].addr, ops[0].buf);
      }
      var c1 := Step(c, ops[0]).0;
      assert PagesFromReplies(c1, reply) by {
        forall i | 0 <= i < |c1.log| ensures LoadStays(c1, reply, i) {
          assert ops[0].Install? ==> LoadStays(c, reply, i);
        }
      }
      assert InstallsRemote(reply, ops[1..]);
      RunFromReplies(c1, reply, ops[1..]);
    }
  }

  /** Every read within page p returns memory. */
  ghost predicate PageReadsMemory(c: Cache, p: nat, mem: nat -> byte)
    requires WellFormed(c) && c.lastPage == 0 && p != 0
  {
    forall addr, buf :: PageOf(addr) == p && OffOf(addr) + |buf| <= PAGE_SIZE ==>
      OnePage(c, addr, buf).1 == ReadResult(Recall(mem, addr, |buf|), |buf|)
  }

  /** Reads within a cached page return memory exactly when the page is memory. */
  lemma CachedReadsIff(c: Cache, p: nat, mem: nat -> byte)
    requires WellFormed(c) && c.lastPage == 0 && p in c.pages && IsPage(p) && p != 0
    ensures PageReadsMemory(c, p, mem) <==> IsMemory(mem, p, c.pages[p])
  {
    var page := c.pages[p];
    MemoryIsRecalled(mem, p, page);
    if IsMemory(mem, p, page) {
      forall addr, buf: Bytes | PageOf(addr) == p && OffOf(addr) + |buf| <= PAGE_SIZE
        ensures OnePage(c, addr, buf).1 == ReadResult(Recall(mem, addr, |buf|), |buf|)
      {
        LocIsInjective(addr, addr);
        RecallSlice(mem, p, OffOf(addr), |buf|);
      }
    } else {
      assert PageOf(p) == p && OffOf(p) == 0;
      var buf := Zeros(PAGE_SIZE);
      assert OnePage(c, p, buf).1.data == page;
      assert OnePage(c, p, buf).1 != ReadResult(Recall(mem, p, PAGE_SIZE), PAGE_SIZE);
    }
  }

  /**
   * In every history on the remote path, reads within a page return memory exactly when
   * the reply to that page's one load began with the page's memory; a missing reply
   * counts as zeros, and zeros are what the server sends when its own read fails.
   */
  lemma RemoteReadsAreMemoryIff(reply: Replies, mem: nat -> byte, ops: seq<Op>, i: nat)
    requires ServableOps(ops) && InstallsRemote(reply, ops) && i < |Run(EMPTY, ops).0.log|
    ensures var c := Run(EMPTY, ops).0;
      && c.log[i].Load? && WellFormed(c) && c.lastPage == 0 && c.log[i].page in c.pages && c.log[i].page != 0
      && (PageReadsMemory(c, c.log[i].page, mem)
          <==> IsMemory(mem, c.log[i].page, PageFrom(reply(i, c.log[i].page, PAGE_SIZE))))
  {
    hide Run, PageReadsMemory, PagesFromReplies, IsMemory, OnePage, IsPage;
    NothingLoaded(reply);
    RunFromReplies(EMPTY, reply, ops);
    var c := Run(EMPTY, ops).0;
    ReplyStays(c, reply, i);
    CachedReadsIff(c, c.log[i].page, mem);
  }

  lemma NothingLoaded(reply: Replies)
    ensures PagesFromReplies(EMPTY, reply)
  {
  }

  lemma ReplyStays(c: Cache, reply: Replies, i: nat)
    requires PagesFromReplies(c, reply) && i < |c.log|
    ensures WellFormed(c) && c.lastPage == 0 && c.log[i].Load? && IsPage(c.log[i].page) && c.log[i].page != 0
    ensures c.log[i].page in c.pages && c.pages[c.log[i].page] == PageFrom(reply(i, c.log[i].page, PAGE_SIZE))
  {
    assert LoadStays(c, reply, i);
  }

  /** Each load that a step makes is answered with memory. */
  ghost predicate RunLoadsMemory(reply: Replies, mem: nat -> byte, c: Cache, ops: seq<Op>)
    requires WellFormed(c) && c.lastPage == 0 && ServableOps(ops)
    decreases |ops|
  {
    ops != [] ==>
      var c1 := Step(c, ops[0]).0;
      && (ops[0].Read? ==> c.f.Some? && LoadsMemory(reply, mem, c1.log, |c.log|))
      && RunLoadsMemory(reply, mem, c1, ops[1..])
  }

  ghost predicate LoadsMemory(reply: Replies, mem: nat -> byte, log: seq<Call>, from: nat) {
    forall k :: from <= k < |log| && log[k].Load? ==>
      IsMemory(mem, log[k].page, PageFrom(reply(k, log[k].page, PAGE_SIZE)))
  }

  lemma LoadsAnswered(reply: Replies, mem: nat -> byte, c: Cache, from: nat)
    requires OnlyLoads(c) && LoadsMemory(reply, mem, c.log, from)
    ensures Answered(Remote(reply), Memory(mem), c.log, from)
  {
    forall k | from <= k < |c.log| ensures AnsweredAs(Remote(reply), Memory(mem), k, c.log[k]) {
      LoadAnsweredIff(reply, mem, k, c.log[k].page, c.log[k].ok);
    }
  }

  lemma {:induction false} RemoteRunAnswered(reply: Replies, mem: nat -> byte, c: Cache, ops: seq<Op>)
    requires PagesFromReplies(c, reply) && ServableOps(ops) && InstallsRemote(reply, ops)
    requires RunLoadsMemory(reply, mem, c, ops)
    ensures RunAnswered(Memory(mem), c, ops)
    decreases |ops|
  {
    if ops != [] {
      hide Get, LoadsMemory, Answered;
      assert [ops[0]][1..] == [];
      RunFromReplies(c, reply, [ops[0]]);
      var c1 := Step(c, ops[0]).0;
      assert Run(c, [ops[0]]).0 == c1;
      if ops[0].Read? {
        LoadsAnswered(reply, mem, c1, |c.log|);
      }
      assert InstallsRemote(reply, ops[1..]);
      RemoteRunAnswered(reply, mem, c1, ops[1..]);
    }
  }

  /**
   * Over every history on the remote path in which each load really made was answered
   * with memory, whatever else the replies may be, every read returns memory.
   */
  lemma RemoteRunIsMemory(reply: Replies, mem: nat -> byte, ops: seq<Op>)
    requires ServableOps(ops) && InstallsRemote(reply, ops) && RunLoadsMemory(reply, mem, EMPTY, ops)
    ensures Run(EMPTY, ops).1 == UncachedRun(Memory(mem), ops)
    ensures FullReadsAreMemory(mem, ops, Run(EMPTY, ops).1)
  {
    hide Run, UncachedRun, RunAnswered, RunLoadsMemory, FullReadsAreMemory;
    RemoteRunAnswered(reply, mem, EMPTY, ops);
    MemoryIsGood(mem);
    AnsweredCallsSuffice(Memory(mem), ops);
    FullReadsThroughCache(Memory(mem), mem, ops);
  }

  // ---- A failed remote read stays in the cache -----------------------------------------------

  /** A page whose waiter was released without data is cached as zeros, and reported as read. */
  lemma ErrorIsCachedAsZeros(c: Cache, reply: Replies, addr: nat, buf: Bytes)
    requires Accounted(c) && c.f == Some(Remote(reply))
    requires PageOf(addr) != 0 && PageOf(addr) !in c.pages && OffOf(addr) + |buf| <= PAGE_SIZE
    requires reply(|c.log|, PageOf(addr), PAGE_SIZE).None?
    ensures OnePage(c, addr, buf).1 == ReadResult(Zeros(|buf|), |buf|)
    ensures PageOf(addr) in OnePage(c, addr, buf).0.pages
    ensures OnePage(c, addr, buf).0.pages[PageOf(addr)] == Zeros(PAGE_SIZE)
  {
    ZerosSlice(OffOf(addr), |buf|);
  }

  lemma OnePageKeepsPages(c: Cache, addr: nat, buf: Bytes, p: nat)
    requires WellFormed(c) && CanReadPage(c, addr, |buf|) && p in c.pages
    ensures p in OnePage(c, addr, buf).0.pages && OnePage(c, addr, buf).0.pages[p] == c.pages[p]
  {
  }

  lemma GetKeepsPages(c: Cache, addr: nat, buf: Bytes, p: nat)
    requires WellFormed(c) && c.lastPage == 0 && p in c.pages && Servable(addr, |buf|)
    ensures p in Get(c, addr, buf).0.pages && Get(c, addr, buf).0.pages[p] == c.pages[p]
  {
    hide OnePage, PageOf, OffOf;
    if PageOf(addr) == PageOf(addr + |buf|) {
      WithinPage(addr, |buf|);
      OnePageKeepsPages(c, addr, buf, p);
    } else {
      var n, c1 := GetIsTwoReads(c, addr, buf);
      hide Get;
      OnePageKeepsPages(c, addr, buf[..n], p);
      OnePageKeepsPages(c1, addr + n, buf[n..], p);
    }
  }

  lemma StepKeepsPages(c: Cache, op: Op, p: nat)
    requires WellFormed(c) && c.lastPage == 0 && p in c.pages && !op.Clear?
    requires op.Read? ==> Servable(op.addr, |op.buf|)
    ensures p in Step(c, op).0.pages && Step(c, op).0.pages[p] == c.pages[p]
  {
    hide Get;
    if op.Read? {
      GetKeepsPages(c, op.addr, op.buf, p);
    }
  }

  /** A cached page never changes until the cache is cleared. */
  lemma {:induction false} PagesStay(c: Cache, ops: seq<Op>, p: nat)
    requires WellFormed(c) && c.lastPage == 0 && p in c.pages && ServableOps(ops)
    requires forall i :: 0 <= i < |ops| ==> !ops[i].Clear?
    ensures p in Run(c, ops).0.pages && Run(c, ops).0.pages[p] == c.pages[p]
    decreases |ops|
  {
    if ops != [] {
      StepKeepsPages(c, ops[0], p);
      PagesStay(Step(c, ops[0]).0, ops[1..], p);
    }
  }

  /** Until the cache is cleared, every later read in that page returns zeros and reports success. */
  lemma ErrorIsServedAgain(c: Cache, reply: Replies, addr: nat, buf: Bytes, ops: seq<Op>, addr': nat, buf': Bytes)
    requires Accounted(c) && c.f == Some(Remote(reply))
    requires PageOf(addr) != 0 && PageOf(addr) !in c.pages && OffOf(addr) + |buf| <= PAGE_SIZE
    requires reply(|c.log|, PageOf(addr), PAGE_SIZE).None?
    requires ServableOps(ops) && forall i :: 0 <= i < |ops| ==> !ops[i].Clear?
    requires PageOf(addr') == PageOf(addr) && OffOf(addr') + |buf'| <= PAGE_SIZE
    ensures var c1 := OnePage(c, addr, buf).0;
      && WellFormed(c1) && c1.lastPage == 0 && WellFormed(Run(c1, ops).0) && Run(c1, ops).0.lastPage == 0
      && OnePage(Run(c1, ops).0, addr', buf').1 == ReadResult(Zeros(|buf'|), |buf'|)
  {
    hide Run, PageOf, OffOf, Remote;
    ErrorIsCachedAsZeros(c, reply, addr, buf);
    OnePageKeeps(c, addr, buf);
    var c1 := OnePage(c, addr, buf).0;
    PagesStay(c1, ops, PageOf(addr));
    RunWellFormed(c1, ops);
    ZerosSlice(OffOf(addr'), |buf'|);
  }

  lemma ZerosSlice(o: nat, len: nat)
    requires o + len <= PAGE_SIZE
    ensures Zeros(PAGE_SIZE)[o..o + len] == Zeros(len)
  {
  }

  lemma {:induction false} RunWellFormed(c: Cache, ops: seq<Op>)
    requires WellFormed(c) && c.lastPage == 0 && ServableOps(ops)
    ensures WellFormed(Run(c, ops).0) && Run(c, ops).0.lastPage == 0
    decreases |ops|
  {
    if ops != [] {
      RunWellFormed(Step(c, ops[0]).0, ops[1..]);
    }
  }
}

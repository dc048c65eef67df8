// The page cache the decoder reads process memory through, as a state and its
// transitions. The memory behind it may fail, and may be answered remotely.
module PageCache {
  import opened Basics
  import opened CountMaps

  /** What a read leaves in its buffer, and the number it returns. */
  datatype ReadResult = ReadResult(data: Bytes, count: nat)

  ghost predicate FillsBuffer(f: (nat, nat, Bytes) -> ReadResult) {
    forall k, a, b :: |f(k, a, b).data| == |b|
  }

  /** f(k, addr, buf): the k-th call since the cache was cleared reads into buf at addr. */
  type Reader = f: (nat, nat, Bytes) -> ReadResult | FillsBuffer(f) witness (k, a, b) => ReadResult(b, 0)

  /** The two calls the cache makes: loading a page, or reading straight into the caller's buffer. */
  datatype Call = Load(page: nat, ok: bool) | Direct(addr: nat, len: nat)

  datatype Cache = Cache(
    pages: map<nat, Bytes>,     // cache_lst
    lastPage: nat,              // last_page, 0 from new and clear_data and never assigned
    lastContent: Option<nat>,   // last_content: the page whose box it points to, None for null
    f: Option<Reader>,
    log: seq<Call>)             // history: calls of f since the cache was cleared

  const EMPTY: Cache := Cache(map[], 0, None, None, [])

  /** Boxes hold whole pages and the raw pointer, when set, points to one of them. */
  ghost predicate WellFormed(c: Cache) {
    && (forall p :: p in c.pages ==> |c.pages[p]| == PAGE_SIZE)
    && (c.lastContent.Some? ==> c.lastContent.value in c.pages)
  }

  // ---- Transitions -------------------------------------------------------------

  /** get_content_in_cache_item */
  function Item(content: Bytes, addr: nat, len: nat): ReadResult
    requires |content| == PAGE_SIZE && OffOf(addr) + len <= PAGE_SIZE
  {
    ReadResult(content[OffOf(addr)..OffOf(addr) + len], len)
  }

  /** A read within one page does not run past it, and follows the raw pointer only when set. */
  ghost predicate CanReadPage(c: Cache, addr: nat, len: nat) {
    OffOf(addr) + len <= PAGE_SIZE && (c.lastPage == PageOf(addr) ==> c.lastContent.Some?)
  }

  /** The uncached branch: load the page, or fall back to reading the caller's range. */
  function Miss(c: Cache, f: Reader, addr: nat, buf: Bytes): (Cache, ReadResult)
    requires OffOf(addr) + |buf| <= PAGE_SIZE
  {
    var p := PageOf(addr);
    var r := f(|c.log|, p, Zeros(PAGE_SIZE));
    if r.count != PAGE_SIZE then
      var d := f(|c.log| + 1, addr, buf);
      (c.(log := c.log + [Load(p, false), Direct(addr, |buf|)]),
       ReadResult(d.data, if d.count != |buf| then 0 else d.count))
    else
      (c.(log := c.log + [Load(p, true)], pages := c.pages[p := r.data], lastContent := Some(p)),
       Item(r.data, addr, |buf|))
  }

  /** get_content_in_one_page */
  function OnePage(c: Cache, addr: nat, buf: Bytes): (Cache, ReadResult)
    requires WellFormed(c) && CanReadPage(c, addr, |buf|)
  {
    var p := PageOf(addr);
    if c.lastPage == p then (c, Item(c.pages[c.lastContent.value], addr, |buf|))
    else if p in c.pages then (c, Item(c.pages[p], addr, |buf|))
    else if c.f.Some? then Miss(c, c.f.value, addr, buf)
    else (c, ReadResult(buf, 0))
  }

  /** Bytes of a read that fall in its first page, when it reaches the next one. */
  function FirstPart(addr: nat, len: nat): nat
    requires PageOf(addr) != PageOf(addr + len)
  {
    PageOf(addr + len) - addr
  }

  /**
   * The cache never assigns last_page, so it is 0; a read in page 0 then follows the
   * raw pointer. A read may reach the next page but not the one after.
   */
  ghost predicate CanGet(c: Cache, addr: nat, len: nat) {
    c.lastPage == 0 && (PageOf(addr) == 0 ==> c.lastContent.Some?) && OffOf(addr) + len < 2 * PAGE_SIZE
  }

  /** A read done in two parts, the first of n bytes. */
  function TwoReads(c: Cache, addr: nat, n: nat, buf: Bytes): (Cache, ReadResult)
    requires n <= |buf| && WellFormed(c) && CanReadPage(c, addr, n)
    requires c.lastPage == PageOf(addr + n) ==> c.lastContent.Some?
    requires OffOf(addr + n) + (|buf| - n) <= PAGE_SIZE
  {
    var (c1, r1) := OnePage(c, addr, buf[..n]);
    OnePageKeeps(c, addr, buf[..n]);
    var (c2, r2) := OnePage(c1, addr + n, buf[n..]);
    (c2, ReadResult(r1.data + r2.data, r1.count + r2.count))
  }

  /** get_content: a read that reaches the next page is done in two parts. */
  function Get(c: Cache, addr: nat, buf: Bytes): (Cache, ReadResult)
    requires WellFormed(c) && CanGet(c, addr, |buf|)
  {
    if PageOf(addr) == PageOf(addr + |buf|) then OnePage(c, addr, buf)
    else TwoReads(c, addr, FirstPart(addr, |buf|), buf)
  }

  lemma OnePageKeeps(c: Cache, addr: nat, buf: Bytes)
    requires WellFormed(c) && CanReadPage(c, addr, |buf|)
    ensures WellFormed(OnePage(c, addr, buf).0)
    ensures OnePage(c, addr, buf).0.lastPage == c.lastPage && OnePage(c, addr, buf).0.f == c.f
    ensures c.lastContent.Some? ==> OnePage(c, addr, buf).0.lastContent.Some?
    ensures |OnePage(c, addr, buf).1.data| == |buf|
  {
  }

  lemma GetKeeps(c: Cache, addr: nat, buf: Bytes)
    requires WellFormed(c) && CanGet(c, addr, |buf|)
    ensures WellFormed(Get(c, addr, buf).0)
    ensures Get(c, addr, buf).0.lastPage == 0 && Get(c, addr, buf).0.f == c.f
    ensures |Get(c, addr, buf).1.data| == |buf|
  {
    if PageOf(addr) == PageOf(addr + |buf|) {
      OnePageKeeps(c, addr, buf);
    } else {
      var n := FirstPart(addr, |buf|);
      OnePageKeeps(c, addr, buf[..n]);
      OnePageKeeps(OnePage(c, addr, buf[..n]).0, addr + n, buf[n..]);
    }
  }

  // ---- Runs ----------------------------------------------------------------------

  /** Install is what a decode does first; Clear is clear_data. */
  datatype Op = Clear | Install(f: Reader) | Read(addr: nat, buf: Bytes)

  /** Reads the cache can serve: not in page zero, reaching at most one page boundary. */
  ghost predicate Servable(addr: nat, len: nat) {
    PageOf(addr) != 0 && OffOf(addr) + len < 2 * PAGE_SIZE
  }

  ghost predicate ServableOps(ops: seq<Op>) {
    forall i :: 0 <= i < |ops| && ops[i].Read? ==> Servable(ops[i].addr, |ops[i].buf|)
  }

  ghost function Step(c: Cache, op: Op): (Cache, seq<ReadResult>)
    requires WellFormed(c) && c.lastPage == 0 && (op.Read? ==> Servable(op.addr, |op.buf|))
    ensures WellFormed(Step(c, op).0) && Step(c, op).0.lastPage == 0
  {
    match op
    case Clear => (EMPTY, [])
    case Install(f) => (c.(f := Some(f)), [])
    case Read(addr, buf) =>
      GetKeeps(c, addr, buf);
      (Get(c, addr, buf).0, [Get(c, addr, buf).1])
  }

  /** The cache after a history, and what each of its reads returned. */
  ghost function Run(c: Cache, ops: seq<Op>): (Cache, seq<ReadResult>)
    requires WellFormed(c) && c.lastPage == 0 && ServableOps(ops)
    decreases |ops|
  {
    if ops == [] then (c, []) else
      var (c1, out) := Step(c, ops[0]);
      var (c2, rest) := Run(c1, ops[1..]);
      (c2, out + rest)
  }
}

// Reading a trace ring that has no write index. The producer (the processor's
// trace unit) fills cells; the consumer infers how far it got from cells that no
// longer hold the sentinel 0xFF, and puts the sentinel back into each cell it has
// read. The producer runs between any two accesses of the consumer.
module SentinelRing {
  import opened Basics

  const SENTINEL: byte := 0xFF
  const WINDOW: nat := 10

  /** Bytes a (inclusive) to b (exclusive) of a stream. */
  ghost function Slice(stream: nat -> byte, a: nat, b: nat): (s: Bytes)
    requires a <= b
    ensures |s| == b - a
  {
    seq(b - a, i requires 0 <= i => stream(a + i))
  }

  /** The cell that byte k of the stream goes to in a ring of n cells. */
  function Slot(k: nat, n: nat): (c: nat)
    requires n > 0
    ensures c < n
  {
    k % n
  }

  lemma {:induction false} MultiplesApart(n: nat, a: nat, b: nat)
    requires a < b
    ensures n * a + n <= n * b
    decreases b
  {
    assert n * b == n * (b - 1) + n;
    if a < b - 1 {
      MultiplesApart(n, a, b - 1);
    }
  }

  lemma DivisionIsUnique(n: nat, q1: nat, r1: nat, q2: nat, r2: nat)
    requires r1 < n && r2 < n && n * q1 + r1 == n * q2 + r2
    ensures q1 == q2 && r1 == r2
  {
    if q1 < q2 {
      MultiplesApart(n, q1, q2);
    } else if q2 < q1 {
      MultiplesApart(n, q2, q1);
    }
  }

  lemma SlotPeriod(k: nat, n: nat)
    requires n > 0
    ensures Slot(k + n, n) == Slot(k, n)
  {
    assert n * (k / n + 1) == n * (k / n) + n;
    DivisionIsUnique(n, (k + n) / n, (k + n) % n, k / n + 1, k % n);
  }

  lemma SlotsDiffer(a: nat, b: nat, n: nat)
    requires n > 0 && a < b < a + n
    ensures Slot(a, n) != Slot(b, n)
  {
    var q, r, d := a / n, a % n, b - a;
    if r + d < n {
      DivisionIsUnique(n, b / n, b % n, q, r + d);
    } else {
      assert n * (q + 1) == n * q + n;
      DivisionIsUnique(n, b / n, b % n, q + 1, r + d - n);
    }
  }

  lemma SlotOfSum(a: nat, d: nat, n: nat)
    requires n > 0
    ensures Slot(Slot(a, n) + d, n) == Slot(a + d, n)
  {
    assert a + d == n * (a / n) + (a % n + d);
    ModOfMultiple(a / n, a % n + d, n);
  }

  lemma ModOfMultiple(q: nat, x: nat, n: nat)
    requires n > 0
    ensures (n * q + x) % n == x % n
  {
    var y := n * q + x;
    assert n * (q + x / n) == n * q + n * (x / n);
    DivisionIsUnique(n, y / n, y % n, q + x / n, x % n);
  }

  /** A ring shared with its producer. The last three fields are not visible to the consumer. */
  class Ring {
    const cells: array<byte>
    const stream: nat -> byte  // everything the producer will ever write, in order
    var produced: nat
    var consumed: nat

    /**
     * The producer writes in order and never overruns unread bytes: those are in
     * their cells, and every other cell holds the sentinel.
     */
    ghost predicate Valid()
      reads this, cells
    {
      && cells.Length > 0
      && consumed <= produced <= consumed + cells.Length
      && forall k {:trigger Slot(k, cells.Length)} :: consumed <= k < consumed + cells.Length ==>
           cells[Slot(k, cells.Length)] == if k < produced then stream(k) else SENTINEL
    }

    /** A cleared ring. */
    constructor (n: nat, stream: nat -> byte)
      requires n > 0
      ensures Valid() && fresh(cells) && cells.Length == n && this.stream == stream
      ensures consumed == produced == 0
    {
      cells := new byte[n](i => SENTINEL);
      this.stream := stream;
      consumed, produced := 0, 0;
    }

    /** The producer writes its next byte, in a free cell. */
    method Produce()
      requires Valid() && produced < consumed + cells.Length
      modifies this`produced, cells
      ensures Valid() && produced == old(produced) + 1
    {
      forall k | consumed <= k < consumed + cells.Length && k != produced
        ensures Slot(k, cells.Length) != Slot(produced, cells.Length)
      {
        SlotsDiffer(if k < produced then k else produced, if k < produced then produced else k, cells.Length);
      }
      cells[Slot(produced, cells.Length)] := stream(produced);
      produced := produced + 1;
    }

    /** Whatever the producer does between two accesses of the consumer. */
    method Interfere()
      requires Valid()
      modifies this`produced, cells
      ensures Valid() && produced >= old(produced)
    {
      var writes: nat := *;
      while writes > 0 && produced < consumed + cells.Length
        invariant Valid() && produced >= old(produced)
        decreases writes
      {
        Produce();
        writes := writes - 1;
      }
    }

    /** The consumer puts the sentinel back into the cell of the byte it has just read. */
    method Poison(offset: nat)
      requires Valid() && consumed < produced && offset == Slot(consumed, cells.Length)
      modifies this`consumed, cells
      ensures Valid() && consumed == old(consumed) + 1
    {
      forall k | consumed < k < consumed + cells.Length
        ensures Slot(k, cells.Length) != offset
      {
        SlotsDiffer(consumed, k, cells.Length);
      }
      SlotPeriod(consumed, cells.Length);
      cells[offset] := SENTINEL;
      consumed := consumed + 1;
    }

    lemma InRange()
      requires Valid()
      ensures cells.Length > 0 && consumed <= produced <= consumed + cells.Length
    {
    }

    /** The bytes in the ring that have not been consumed. */
    ghost function Unread(): (u: Bytes)
      requires Valid()
      reads this, cells
      ensures |u| == produced - consumed <= cells.Length
    {
      Slice(stream, consumed, produced)
    }

    /** What the cell j places ahead of the read position shows, however large j is. */
    lemma CellAhead(j: nat)
      requires Valid()
      ensures Slot(j, cells.Length) <= j && (consumed + j < produced ==> Slot(j, cells.Length) == j)
      ensures cells[Slot(consumed + j, cells.Length)]
           == if consumed + Slot(j, cells.Length) < produced then stream(consumed + Slot(j, cells.Length)) else SENTINEL
    {
      SlotsAgree(consumed, j, cells.Length);
    }
  }

  lemma SlotOfSmall(j: nat, n: nat)
    requires n > 0
    ensures Slot(j, n) <= j && (j < n ==> Slot(j, n) == j)
  {
    var q := j / n;
    assert n * q >= 0 && j == n * q + j % n;
    if j < n {
      DivisionIsUnique(n, q, j % n, 0, j);
    }
  }

  lemma SlotsAgree(c: nat, j: nat, n: nat)
    requires n > 0
    ensures Slot(c + Slot(j, n), n) == Slot(c + j, n)
    ensures Slot(j, n) <= j && (j < n ==> Slot(j, n) == j)
  {
    SlotOfSmall(j, n);
    SlotOfSum(j, c, n);
  }

  // ---- What can be read ----------------------------------------------------------------

  /** One of the next ten unread bytes is not the sentinel. */
  predicate Visible(unread: Bytes) {
    exists j :: 0 <= j < |unread| && j < WINDOW && unread[j] != SENTINEL
  }

  /** How many unread bytes a quiet producer lets the consumer read. */
  function Readable(unread: Bytes): nat {
    if unread != [] && Visible(unread) then 1 + Readable(unread[1..]) else 0
  }

  /** After i readable bytes, the rest is as readable as it is on its own. */
  lemma {:induction false} ReadableRest(unread: Bytes, i: nat)
    requires i <= Readable(unread)
    ensures i <= |unread| && Readable(unread) == i + Readable(unread[i..])
  {
    if i > 0 {
      ReadableRest(unread[1..], i - 1);
      assert unread[1..][i - 1..] == unread[i..];
    } else {
      assert unread[0..] == unread;
    }
  }

  /** More unread bytes never make less readable. */
  lemma {:induction false} ReadableGrows(unread: Bytes, more: Bytes)
    ensures Readable(unread) <= Readable(unread + more)
  {
    if unread != [] && Visible(unread) {
      VisibleGrows(unread, more);
      assert (unread + more)[1..] == unread[1..] + more;
      ReadableGrows(unread[1..], more);
    }
  }

  lemma VisibleGrows(unread: Bytes, more: Bytes)
    requires Visible(unread)
    ensures Visible(unread + more)
  {
    var j :| 0 <= j < |unread| && j < WINDOW && unread[j] != SENTINEL;
    assert (unread + more)[j] != SENTINEL;
  }

  lemma SliceRest(stream: nat -> byte, a: nat, i: nat, b: nat)
    requires a + i <= b
    ensures Slice(stream, a, b)[i..] == Slice(stream, a + i, b)
  {
  }

  lemma SliceJoin(stream: nat -> byte, a: nat, b: nat, c: nat)
    requires a <= b <= c
    ensures Slice(stream, a, b) + Slice(stream, b, c) == Slice(stream, a, c)
  {
  }

  lemma SliceSnoc(stream: nat -> byte, a: nat, b: nat)
    requires a <= b
    ensures Slice(stream, a, b + 1) == Slice(stream, a, b) + [stream(b)]
  {
  }

  lemma FillNext(done: Bytes, buf: Bytes, i: nat, x: byte)
    requires |done| == i < |buf|
    ensures (done + buf[i..])[i := x] == (done + [x]) + buf[i + 1..]
  {
  }

  /** The inner loop of fetch_data: looks for a cell that is not the sentinel. */
  method Window(ring: Ring, pos: nat, i: nat) returns (isValid: bool)
    requires ring.Valid() && Slot(pos + i, ring.cells.Length) == Slot(ring.consumed, ring.cells.Length)
    modifies ring`produced, ring.cells
    ensures ring.Valid() && ring.produced >= old(ring.produced)
    ensures Visible(Slice(ring.stream, ring.consumed, old(ring.produced))) ==> isValid
    ensures isValid ==> ring.consumed < ring.produced && Visible(Slice(ring.stream, ring.consumed, ring.produced))
  {
    hide Slot;
    isValid := false;
    ghost var unread := Slice(ring.stream, ring.consumed, ring.produced);
    for j := 0 to WINDOW
      invariant ring.Valid() && ring.produced >= old(ring.produced) && !isValid
      invariant forall k :: 0 <= k < j && k < |unread| ==> unread[k] == SENTINEL
    {
      ring.Interfere();
      SlotOfSum(pos + i, j, ring.cells.Length);
      SlotOfSum(ring.consumed, j, ring.cells.Length);
      ring.CellAhead(j);
      var curOffset := Slot(pos + i + j, ring.cells.Length);
      if ring.cells[curOffset] != SENTINEL {
        isValid := true;
        assert Slice(ring.stream, ring.consumed, ring.produced)[Slot(j, ring.cells.Length)] != SENTINEL;
        break;
      }
    }
  }

  /** One iteration of fetch_data after a successful window: byte i goes into outBuff. */
  method TakeByte(ring: Ring, offset: nat, outBuff: array<byte>, i: nat)
    requires ring.Valid() && ring.consumed < ring.produced && offset == Slot(ring.consumed, ring.cells.Length)
    requires i < outBuff.Length && outBuff != ring.cells
    modifies ring`produced, ring`consumed, ring.cells, outBuff
    ensures ring.Valid() && ring.produced >= old(ring.produced) && ring.consumed == old(ring.consumed) + 1
    ensures outBuff[..] == old(outBuff[..])[i := ring.stream(old(ring.consumed))]
  {
    hide Slot;
    ring.Interfere();
    ring.CellAhead(0);
    outBuff[i] := ring.cells[offset];
    ring.Interfere();
    ring.Poison(offset);
  }

  /** One iteration of fetch_data. */
  method FetchByte(ring: Ring, pos: nat, outBuff: array<byte>, i: nat) returns (isValid: bool)
    requires ring.Valid() && Slot(pos + i, ring.cells.Length) == Slot(ring.consumed, ring.cells.Length)
    requires i < outBuff.Length && outBuff != ring.cells
    modifies ring`produced, ring`consumed, ring.cells, outBuff
    ensures ring.Valid() && ring.produced >= old(ring.produced)
    ensures ring.consumed == old(ring.consumed) + if isValid then 1 else 0
    ensures outBuff[..] == if isValid then old(outBuff[..])[i := ring.stream(old(ring.consumed))] else old(outBuff[..])
    ensures Visible(Slice(ring.stream, old(ring.consumed), old(ring.produced))) ==> isValid
    ensures isValid ==>
      old(ring.consumed) < ring.produced && Visible(Slice(ring.stream, old(ring.consumed), ring.produced))
  {
    hide Slot, Slice, Visible;
    isValid := Window(ring, pos, i);
    if isValid {
      ghost var seen := ring.produced;
      TakeByte(ring, Slot(i + pos, ring.cells.Length), outBuff, i);
      SliceJoin(ring.stream, old(ring.consumed), seen, ring.produced);
      VisibleGrows(Slice(ring.stream, old(ring.consumed), seen), Slice(ring.stream, seen, ring.produced));
    }
  }

  /** After i bytes: the buffer's first i bytes are the stream's next ones. */
  ghost predicate Fetched(stream: nat -> byte, start: nat, i: nat, before: Bytes, now: Bytes) {
    i <= |before| && now == Slice(stream, start, start + i) + before[i..]
  }

  lemma NothingFetched(stream: nat -> byte, start: nat, before: Bytes)
    ensures Fetched(stream, start, 0, before, before)
  {
    assert Slice(stream, start, start) == [];
  }

  lemma FetchedOne(stream: nat -> byte, start: nat, i: nat, before: Bytes, now: Bytes)
    requires Fetched(stream, start, i, before, now) && i < |before|
    ensures i < |now| && Fetched(stream, start, i + 1, before, now[i := stream(start + i)])
  {
    SliceSnoc(stream, start, start + i);
    FillNext(Slice(stream, start, start + i), before, i, stream(start + i));
  }

  lemma FetchedSays(stream: nat -> byte, start: nat, i: nat, before: Bytes, now: Bytes)
    requires Fetched(stream, start, i, before, now)
    ensures i <= |before| && now == Slice(stream, start, start + i) + before[i..]
  {
  }

  /** At least i of the bytes produced so far could be read. */
  ghost predicate CanRead(stream: nat -> byte, start: nat, i: nat, produced: nat) {
    start + i <= produced && i <= Readable(Slice(stream, start, produced))
  }

  /** Byte i was read: it was visible among bytes produced by then. */
  lemma CanReadOne(stream: nat -> byte, start: nat, i: nat, before: nat, produced: nat)
    requires CanRead(stream, start, i, before) && before <= produced
    requires start + i < produced && Visible(Slice(stream, start + i, produced))
    ensures CanRead(stream, start, i + 1, produced)
  {
    SliceJoin(stream, start, before, produced);
    ReadableGrows(Slice(stream, start, before), Slice(stream, before, produced));
    ReadableRest(Slice(stream, start, produced), i);
    SliceRest(stream, start, i, produced);
  }

  lemma CanReadLater(stream: nat -> byte, start: nat, i: nat, before: nat, produced: nat)
    requires CanRead(stream, start, i, before) && before <= produced
    ensures CanRead(stream, start, i, produced)
  {
    SliceJoin(stream, start, before, produced);
    ReadableGrows(Slice(stream, start, before), Slice(stream, before, produced));
  }

  /** The window showed nothing: no more than i of the bytes there at the start could be read. */
  lemma StopsWhenInvisible(stream: nat -> byte, start: nat, i: nat, made: nat, before: nat)
    requires start <= made <= before && start + i <= before && !Visible(Slice(stream, start + i, before))
    ensures Readable(Slice(stream, start, made)) <= i
  {
    SliceJoin(stream, start, made, before);
    ReadableGrows(Slice(stream, start, made), Slice(stream, made, before));
    if Readable(Slice(stream, start, before)) > i {
      ReadableRest(Slice(stream, start, before), i);
      SliceRest(stream, start, i, before);
    }
  }

  /** How many unread bytes fit a buffer of the given size and can be read. */
  function Fetchable(unread: Bytes, room: nat): (n: nat)
    ensures n <= room
  {
    if Readable(unread) < room then Readable(unread) else room
  }

  /**
   * fetch_data: reads into outBuff until it is full or the window shows only sentinels.
   * It delivers at least what could be read at its start and at most what can be read of
   * the bytes produced by its end; with a quiet producer the two are the same.
   */
  method FetchData(ring: Ring, pos: nat, outBuff: array<byte>) returns (rstSize: nat)
    requires ring.Valid() && pos == Slot(ring.consumed, ring.cells.Length) && outBuff != ring.cells
    modifies ring`produced, ring`consumed, ring.cells, outBuff
    ensures ring.Valid() && ring.produced >= old(ring.produced)
    ensures rstSize <= outBuff.Length && ring.consumed == old(ring.consumed) + rstSize
    ensures outBuff[..] == Slice(ring.stream, old(ring.consumed), ring.consumed) + old(outBuff[..])[rstSize..]
    ensures Fetchable(old(ring.Unread()), outBuff.Length) <= rstSize
    ensures rstSize <= Fetchable(Slice(ring.stream, old(ring.consumed), ring.produced), outBuff.Length)
  {
    hide Ring.Valid, Slot, Slice, Readable, Visible, Fetched, CanRead;
    rstSize := 0;
    ghost var start, made, buf := ring.consumed, ring.produced, outBuff[..];
    ring.InRange();
    NothingFetched(ring.stream, start, buf);
    NothingRead(ring.stream, start, made);
    for i := 0 to outBuff.Length
      invariant ring.Valid() && ring.produced >= made && rstSize == i && ring.consumed == start + i
      invariant Fetched(ring.stream, start, i, buf, outBuff[..])
      invariant CanRead(ring.stream, start, i, ring.produced)
    {
      SlotOfSum(start, i, ring.cells.Length);
      ghost var now, before := outBuff[..], ring.produced;
      ring.InRange();
      var isValid := FetchByte(ring, pos, outBuff, i);
      if !isValid {
        StopsWhenInvisible(ring.stream, start, i, made, before);
        CanReadLater(ring.stream, start, i, before, ring.produced);
        break;
      }
      FetchedOne(ring.stream, start, i, buf, now);
      CanReadOne(ring.stream, start, i, before, ring.produced);
      rstSize := rstSize + 1;
    }
    FetchedSays(ring.stream, start, rstSize, buf, outBuff[..]);
    CanReadSays(ring.stream, start, rstSize, ring.produced);
  }

  lemma NothingRead(stream: nat -> byte, start: nat, produced: nat)
    requires start <= produced
    ensures CanRead(stream, start, 0, produced)
  {
  }

  lemma CanReadSays(stream: nat -> byte, start: nat, i: nat, produced: nat)
    requires CanRead(stream, start, i, produced)
    ensures start + i <= produced && i <= Readable(Slice(stream, start, produced))
  {
  }

  // ---- Progress ------------------------------------------------------------------------

  /** The next ten unread bytes all equal the sentinel. */
  predicate TenSentinels(unread: Bytes) {
    |unread| >= 10 && forall j :: 0 <= j < 10 ==> unread[j] == 0xFF
  }

  /**
   * When the consumer stops with the producer quiet, the unread bytes are all
   * sentinels, at most nine of them, or begin with ten.
   */
  lemma {:induction false} WhereItStops(unread: Bytes)
    ensures Readable(unread) <= |unread|
    ensures var rest := unread[Readable(unread)..];
      TenSentinels(rest) || (|rest| < WINDOW && forall j :: 0 <= j < |rest| ==> rest[j] == SENTINEL)
  {
    if unread != [] && Visible(unread) {
      WhereItStops(unread[1..]);
      assert unread[Readable(unread)..] == unread[1..][Readable(unread[1..])..];
    }
  }

  /** Without a run of ten sentinels at most nine bytes stay unread. */
  lemma AtMostNineStay(unread: Bytes)
    requires forall i :: 0 <= i <= |unread| ==> !TenSentinels(unread[i..])
    ensures |unread| - Readable(unread) < 10
  {
    WhereItStops(unread);
  }

  /** Bytes that the ring has room for besides those it holds. */
  ghost predicate HasRoom(ring: Ring, more: Bytes)
    requires ring.Valid()
    reads ring, ring.cells
  {
    |ring.Unread()| + |more| <= ring.cells.Length
  }

  /**
   * The bytes that stay are delivered, in order, by the next fetch that starts once nine
   * more have been produced; what the fetch delivers is what FetchData promises.
   */
  lemma LaterBytesRelease(ring: Ring, more: Bytes, room: nat)
    requires ring.Valid() && HasRoom(ring, more) && |more| >= WINDOW - 1 && room >= |ring.Unread()|
    requires forall i :: 0 <= i <= |ring.Unread() + more| ==> !TenSentinels((ring.Unread() + more)[i..])
    ensures Fetchable(ring.Unread() + more, room) >= |ring.Unread()|
  {
    AtMostNineStay(ring.Unread() + more);
  }

  predicate AllSentinels(unread: Bytes) {
    forall j :: 0 <= j < |unread| ==> unread[j] == 0xFF
  }

  /** No fetch ever delivers anything again, whatever the producer may still write. */
  ghost predicate Stuck(ring: Ring, room: nat)
    requires ring.Valid()
    reads ring, ring.cells
  {
    forall more :: HasRoom(ring, more) ==> Fetchable(ring.Unread() + more, room) == 0
  }

  /**
   * A ring is stuck for good exactly when its unread bytes begin with ten sentinels, or
   * it is full of sentinels. In a ring of at least ten cells the second is a case of the first.
   */
  lemma StuckIffTenSentinels(ring: Ring, room: nat)
    requires ring.Valid() && room > 0
    ensures Stuck(ring, room) <==>
      TenSentinels(ring.Unread()) || (|ring.Unread()| == ring.cells.Length && AllSentinels(ring.Unread()))
    ensures ring.cells.Length >= WINDOW ==> (Stuck(ring, room) <==> TenSentinels(ring.Unread()))
  {
    var u := ring.Unread();
    if TenSentinels(u) {
      forall more | HasRoom(ring, more) ensures Fetchable(u + more, room) == 0 {
        TenAreInvisible(u, more);
      }
    } else if |u| == ring.cells.Length && AllSentinels(u) {
      forall more | HasRoom(ring, more) ensures Fetchable(u + more, room) == 0 {
        assert u + more == u;
      }
    } else {
      var more: Bytes := if |u| < ring.cells.Length then [0] else [];
      assert HasRoom(ring, more);
      OneMoreShows(u, more);
    }
  }

  lemma TenAreInvisible(unread: Bytes, more: Bytes)
    requires TenSentinels(unread)
    ensures !Visible(unread + more)
  {
    assert forall j :: 0 <= j < WINDOW ==> (unread + more)[j] == unread[j];
  }

  /** A byte that is not a sentinel, in the window or behind fewer than ten, shows. */
  lemma OneMoreShows(unread: Bytes, more: Bytes)
    requires !TenSentinels(unread) && (more == [0] || (more == [] && !AllSentinels(unread)))
    ensures Readable(unread + more) > 0
  {
    var all := unread + more;
    assert Visible(all) by {
      if j :| 0 <= j < |unread| && j < WINDOW && unread[j] != SENTINEL {
        assert all[j] == unread[j];
      } else {
        assert |unread| < WINDOW;
        assert all[|unread|] == 0;
      }
    }
  }

  // ---- The polling loop -------------------------------------------------------------------

  const TMP_BUFF: nat := 1024 * 800

  /** Everything the processor was handed for one ring, in order. */
  function Handed(chunks: seq<Bytes>): Bytes {
    if chunks == [] then [] else Handed(chunks[..|chunks| - 1]) + chunks[|chunks| - 1]
  }

  predicate AllRefuse(accept: (nat, nat) -> bool, n: nat, sweep: nat) {
    forall i :: 0 <= i < n ==> !accept(sweep, i)
  }

  predicate SomeoneAccepts(accept: (nat, nat) -> bool, n: nat, sweep: nat) {
    exists i :: 0 <= i < n && accept(sweep, i)
  }

  /** No processor call of the sweep wants more, and in every earlier sweep one did. */
  lemma RefusalsSay(accept: (nat, nat) -> bool, n: nat, sweep: nat)
    requires AllRefuse(accept, n, sweep) && forall s :: 0 <= s < sweep ==> !AllRefuse(accept, n, s)
    ensures forall i :: 0 <= i < n ==> !accept(sweep, i)
    ensures forall s :: 0 <= s < sweep ==> SomeoneAccepts(accept, n, s)
  {
    forall s | 0 <= s < sweep ensures SomeoneAccepts(accept, n, s) {
      assert !AllRefuse(accept, n, s);
    }
  }

  /** Distinct rings with distinct buffers. */
  ghost predicate Separate(rings: seq<Ring>) {
    forall i, j :: 0 <= i < j < |rings| ==> rings[i] != rings[j] && rings[i].cells != rings[j].cells
  }

  /** Each ring's position is its consumed count modulo its length, and its chunks are what was consumed. */
  ghost predicate Polled(rings: seq<Ring>, readPos: seq<nat>, chunks: seq<seq<Bytes>>)
    reads set r | r in rings, set r | r in rings :: r.cells
  {
    && |readPos| == |chunks| == |rings|
    && forall i :: 0 <= i < |rings| ==>
         && rings[i].Valid()
         && readPos[i] == Slot(rings[i].consumed, rings[i].cells.Length)
         && Handed(chunks[i]) == Slice(rings[i].stream, 0, rings[i].consumed)
  }

  lemma HandedSnoc(chunks: seq<Bytes>, chunk: Bytes)
    ensures Handed(chunks + [chunk]) == Handed(chunks) + chunk
  {
    assert (chunks + [chunk])[..|chunks|] == chunks;
  }

  /** One poll of one ring. */
  method Poll(rings: seq<Ring>, ring: Ring, readPos: seq<nat>, ghost chunks: seq<seq<Bytes>>, i: nat,
              tmpBuff: array<byte>)
    returns (readPos': seq<nat>, ghost chunks': seq<seq<Bytes>>, readSize: nat)
    requires i < |rings| && ring == rings[i] && Separate(rings) && Polled(rings, readPos, chunks)
    requires forall k :: 0 <= k < |rings| ==> tmpBuff != rings[k].cells
    modifies ring`produced, ring`consumed, ring.cells, tmpBuff
    ensures Polled(rings, readPos', chunks') && readSize <= tmpBuff.Length && ring.produced >= old(ring.produced)
    ensures chunks' == chunks[i := chunks[i] + [tmpBuff[..readSize]]]
  {
    hide Slot, Slice, Handed;
    var pos, len := readPos[i], ring.cells.Length;
    ghost var start := ring.consumed;
    readSize := FetchData(ring, pos, tmpBuff);
    readPos' := readPos[i := Slot(pos + readSize, len)];
    SlotOfSum(start, readSize, len);
    ghost var chunk := tmpBuff[..readSize];
    assert chunk == Slice(ring.stream, start, ring.consumed);
    chunks' := chunks[i := chunks[i] + [chunk]];
    HandedSnoc(chunks[i], chunk);
    SliceJoin(ring.stream, 0, start, ring.consumed);
  }

  /** One sweep over the rings; it stops the loop when the processor has refused on every one. */
  method Sweep(rings: seq<Ring>, accept: (nat, nat) -> bool, sweep: nat, readPos: seq<nat>,
               ghost chunks: seq<seq<Bytes>>, tmpBuff: array<byte>)
    returns (readPos': seq<nat>, ghost chunks': seq<seq<Bytes>>, stopped: bool)
    requires |rings| > 0 && Separate(rings) && Polled(rings, readPos, chunks)
    requires forall k :: 0 <= k < |rings| ==> tmpBuff != rings[k].cells
    modifies set r | r in rings, set r | r in rings :: r.cells, tmpBuff
    ensures Polled(rings, readPos', chunks') && |chunks'| == |chunks|
    ensures forall r :: r in rings ==> r.produced >= old(r.produced)
    ensures forall k :: 0 <= k < |chunks| ==> |chunks'[k]| == |chunks[k]| + 1
    ensures stopped <==> AllRefuse(accept, |rings|, sweep)
  {
    hide Slot, Slice, Handed, Polled;
    readPos', chunks' := readPos, chunks;
    PolledSizes(rings, readPos, chunks);
    var flags := seq(|rings|, i => false);
    for i := 0 to |rings|
      invariant Polled(rings, readPos', chunks') && |flags| == |rings| == |chunks'|
      invariant forall r :: r in rings ==> r.produced >= old(r.produced)
      invariant forall k :: 0 <= k < |rings| ==> |chunks'[k]| == |chunks[k]| + if k < i then 1 else 0
      invariant forall k :: 0 <= k < |rings| ==> flags[k] == (k < i && !accept(sweep, k))
      invariant i == |rings| ==> !AllRefuse(accept, |rings|, sweep)
    {
      var size;
      readPos', chunks', size := Poll(rings, rings[i], readPos', chunks', i, tmpBuff);
      if !accept(sweep, i) {
        ghost var before := flags;
        flags := flags[i := true];
        if forall k :: 0 <= k < |flags| ==> flags[k] {
          forall k | 0 <= k < |rings| ensures !accept(sweep, k) {
            assert flags[k] == (k == i || before[k]);
          }
          assert flags[|rings| - 1];
          stopped := true;
          return;
        }
      }
    }
    stopped := false;
  }

  lemma PolledSizes(rings: seq<Ring>, readPos: seq<nat>, chunks: seq<seq<Bytes>>)
    requires Polled(rings, readPos, chunks)
    ensures |readPos| == |chunks| == |rings|
  {
  }

  lemma PolledSays(rings: seq<Ring>, readPos: seq<nat>, chunks: seq<seq<Bytes>>)
    requires Polled(rings, readPos, chunks)
    ensures forall i :: 0 <= i < |rings| ==>
      rings[i].Valid() && Handed(chunks[i]) == Slice(rings[i].stream, 0, rings[i].consumed)
  {
  }

  lemma NothingPolled(rings: seq<Ring>, readPos: seq<nat>, chunks: seq<seq<Bytes>>)
    requires |readPos| == |chunks| == |rings|
    requires forall i :: 0 <= i < |rings| ==> rings[i].Valid() && rings[i].consumed == 0
    requires forall i :: 0 <= i < |rings| ==> readPos[i] == 0 && chunks[i] == []
    ensures Polled(rings, readPos, chunks)
  {
    forall i | 0 <= i < |rings| ensures readPos[i] == Slot(rings[i].consumed, rings[i].cells.Length) {
      SlotOfSmall(0, rings[i].cells.Length);
    }
  }

  /**
   * The loop of setup_pt_no_pmi. accept(s, i) is what the processor answers in sweep s
   * for ring i; a sweep in which it refuses everywhere is assumed to come. The loop
   * returns at the end of the first such sweep, every ring polled once per sweep and
   * everything consumed, and nothing that was not produced, handed over; refusals of
   * earlier sweeps do not count.
   */
  method PollLoop(rings: seq<Ring>, accept: (nat, nat) -> bool, ghost stop: nat)
    returns (sweep: nat, ghost chunks: seq<seq<Bytes>>)
    requires |rings| > 0 && Separate(rings) && AllRefuse(accept, |rings|, stop)
    requires forall r :: r in rings ==> r.Valid() && r.consumed == 0
    modifies set r | r in rings, set r | r in rings :: r.cells
    ensures AllRefuse(accept, |rings|, sweep) && forall s :: 0 <= s < sweep ==> !AllRefuse(accept, |rings|, s)
    ensures forall i :: 0 <= i < |rings| ==> !accept(sweep, i)
    ensures forall s :: 0 <= s < sweep ==> SomeoneAccepts(accept, |rings|, s)
    ensures |chunks| == |rings|
    ensures forall i :: 0 <= i < |rings| ==>
      && rings[i].Valid() && rings[i].produced >= old(rings[i].produced)
      && |chunks[i]| == sweep + 1
      && Handed(chunks[i]) == Slice(rings[i].stream, 0, rings[i].consumed)
  {
    hide Ring.Valid, Slot, Slice, Handed, AllRefuse, SomeoneAccepts, Polled, Separate;
    var readPos: seq<nat> := seq(|rings|, i => 0);
    var tmpBuff := new byte[TMP_BUFF];
    chunks := seq(|rings|, i => []);
    sweep := 0;
    NothingPolled(rings, readPos, chunks);
    while true
      invariant Polled(rings, readPos, chunks) && sweep <= stop && |chunks| == |rings|
      invariant forall r :: r in rings ==> r.produced >= old(r.produced)
      invariant forall i :: 0 <= i < |rings| ==> |chunks[i]| == sweep
      invariant forall s :: 0 <= s < sweep ==> !AllRefuse(accept, |rings|, s)
      decreases stop - sweep
    {
      var stopped;
      readPos, chunks, stopped := Sweep(rings, accept, sweep, readPos, chunks, tmpBuff);
      if stopped {
        RefusalsSay(accept, |rings|, sweep);
        PolledSays(rings, readPos, chunks);
        return;
      }
      sweep := sweep + 1;
    }
  }
}

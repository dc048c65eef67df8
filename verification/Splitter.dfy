// The splitter thread: it appends each chunk to its buffer, rescans the whole
// buffer, sends the complete segments between consecutive offsets and keeps the
// last, incomplete one. For every scanner that is stable under append and can be
// resumed at an offset, what it has sent and kept depends only on the bytes
// received so far, not on how they were cut into chunks.
module Splitter {
  import opened Basics
  import opened PsbScanner

  type Scanner = Bytes -> seq<nat>

  function Shift(offsets: seq<nat>, d: nat): seq<nat> {
    seq(|offsets|, i requires 0 <= i < |offsets| => offsets[i] + d)
  }

  /** Offsets are increasing positions inside the buffer. */
  ghost predicate Ordered(offsets: seq<nat>, len: nat) {
    && |offsets| <= len
    && (forall i :: 0 <= i < |offsets| ==> offsets[i] < len)
    && (forall i, j :: 0 <= i < j < |offsets| ==> offsets[i] < offsets[j])
  }

  ghost predicate OrderedOn(scan: Scanner, s: Bytes) {
    Ordered(scan(s), |s|)
  }

  /** More bytes only add offsets. */
  ghost predicate StableOn(scan: Scanner, s: Bytes, t: Bytes) {
    scan(s) <= scan(s + t)
  }

  /** Scanning again from the k-th offset finds it and all later ones. */
  ghost predicate ResumesOn(scan: Scanner, s: Bytes, k: nat) {
    k < |scan(s)| && scan(s)[k] <= |s| ==> scan(s)[k..] == Shift(scan(s[scan(s)[k]..]), scan(s)[k])
  }

  ghost predicate Resumable(scan: Scanner) {
    && (forall s {:trigger OrderedOn(scan, s)} :: OrderedOn(scan, s))
    && (forall s, t {:trigger StableOn(scan, s, t)} :: StableOn(scan, s, t))
    && (forall s, k: nat {:trigger ResumesOn(scan, s, k)} :: ResumesOn(scan, s, k))
  }

  // ---- What should be sent and kept ------------------------------------------------

  /** The segments between consecutive offsets. */
  function Segments(s: Bytes, offsets: seq<nat>): seq<Bytes>
    requires Ordered(offsets, |s|)
  {
    seq(if |offsets| == 0 then 0 else |offsets| - 1,
        i requires 0 <= i < |offsets| - 1 => s[offsets[i]..offsets[i + 1]])
  }

  /** The tasks of a stream: its segments, all but the last. */
  ghost function Tasks(scan: Scanner, s: Bytes): seq<Bytes>
    requires Resumable(scan)
  {
    assert OrderedOn(scan, s);
    Segments(s, scan(s))
  }

  /** What is kept of a stream: from its last offset on, or everything while there is none. */
  ghost function Kept(scan: Scanner, s: Bytes): Bytes
    requires Resumable(scan)
  {
    assert OrderedOn(scan, s);
    if scan(s) == [] then s else s[scan(s)[|scan(s)| - 1]..]
  }

  function Concat(chunks: seq<Bytes>): Bytes {
    if chunks == [] then [] else Concat(chunks[..|chunks| - 1]) + chunks[|chunks| - 1]
  }

  // ---- One chunk ---------------------------------------------------------------------

  /** Scanning kept bytes plus a chunk finds the offsets of the whole stream from the last one on. */
  lemma ScanOfKept(scan: Scanner, s: Bytes, d: Bytes)
    requires Resumable(scan)
    ensures scan(s) == [] ==> scan(Kept(scan, s) + d) == scan(s + d)
    ensures scan(s) != [] ==>
      var k := |scan(s)| - 1;
      k < |scan(s + d)| && Shift(scan(Kept(scan, s) + d), scan(s)[k]) == scan(s + d)[k..]
      && scan(s + d)[..k + 1] == scan(s)
  {
    assert OrderedOn(scan, s) && StableOn(scan, s, d);
    if scan(s) != [] {
      var k := |scan(s)| - 1;
      var o := scan(s)[k];
      assert scan(s + d)[k] == o;
      assert (s + d)[o..] == s[o..] + d;
      assert ResumesOn(scan, s + d, k);
    }
  }

  lemma SubSlice(s: Bytes, o: nat, a: nat, b: nat)
    requires a <= b && o + b <= |s|
    ensures s[o..][a..b] == s[o + a..o + b]
  {
  }

  /** Segments up to offset k and from offset k on make up all segments. */
  lemma SegmentsSplit(s: Bytes, all: seq<nat>, k: nat, sub: seq<nat>)
    requires Ordered(all, |s|) && k < |all| && Ordered(sub, |s| - all[k])
    requires Shift(sub, all[k]) == all[k..]
    ensures Ordered(all[..k + 1], |s|)
    ensures Segments(s, all) == Segments(s, all[..k + 1]) + Segments(s[all[k]..], sub)
  {
    assert |sub| == |all| - k;
    var x, y, z := Segments(s, all), Segments(s, all[..k + 1]), Segments(s[all[k]..], sub);
    forall i | 0 <= i < k ensures x[i] == y[i] {
    }
    forall i | 0 <= i < |z| ensures x[k + i] == z[i] {
      assert Shift(sub, all[k])[i] == all[k..][i] && Shift(sub, all[k])[i + 1] == all[k..][i + 1];
      SubSlice(s, all[k], sub[i], sub[i + 1]);
    }
    assert forall i :: 0 <= i < |x| ==> x[i] == (y + z)[i];
  }

  /** Bytes behind the last offset do not matter to the segments. */
  lemma SegmentsOfPrefix(s: Bytes, d: Bytes, offsets: seq<nat>)
    requires Ordered(offsets, |s|)
    ensures Ordered(offsets, |s + d|) && Segments(s + d, offsets) == Segments(s, offsets)
  {
    var x, y := Segments(s + d, offsets), Segments(s, offsets);
    forall i | 0 <= i < |x| ensures x[i] == y[i] {
      assert offsets[i] < offsets[i + 1] < |s|;
    }
  }

  lemma OrderedAt(scan: Scanner, s: Bytes)
    requires Resumable(scan)
    ensures OrderedOn(scan, s)
  {
  }

  lemma LastShifts(all: seq<nat>, sub: seq<nat>, k: nat)
    requires k < |all| && Shift(sub, all[k]) == all[k..]
    ensures |sub| == |all| - k && sub[|sub| - 1] + all[k] == all[|all| - 1]
  {
    assert Shift(sub, all[k])[|sub| - 1] == all[k..][|sub| - 1];
  }

  /** What a chunk adds to the segments and leaves in the buffer, once there is an offset. */
  lemma ChunkOffsets(s: Bytes, d: Bytes, first: seq<nat>, all: seq<nat>, sub: seq<nat>)
    requires Ordered(first, |s|) && Ordered(all, |s + d|) && first != [] && |first| <= |all|
    requires all[..|first|] == first && first[|first| - 1] <= |s|
    requires Ordered(sub, |s[first[|first| - 1]..] + d|)
    requires Shift(sub, first[|first| - 1]) == all[|first| - 1..]
    ensures var b := s[first[|first| - 1]..] + d;
      && Segments(s + d, all) == Segments(s, first) + Segments(b, sub)
      && sub != [] && b[sub[|sub| - 1]..] == (s + d)[all[|all| - 1]..]
  {
    hide Shift, Segments, Ordered;
    var k := |first| - 1;
    assert first[k] == all[..k + 1][k] == all[k];
    assert s[all[k]..] + d == (s + d)[all[k]..];
    SegmentsSplit(s + d, all, k, sub);
    SegmentsOfPrefix(s, d, first);
    LastShifts(all, sub, k);
    LastFits(all, |s + d|);
  }

  lemma LastFits(offsets: seq<nat>, len: nat)
    requires Ordered(offsets, len) && offsets != []
    ensures offsets[|offsets| - 1] < len
  {
  }

  /** A chunk adds the tasks found in the kept bytes plus the chunk, and keeps the rest. */
  lemma ChunkStep(scan: Scanner, s: Bytes, d: Bytes)
    requires Resumable(scan)
    ensures Tasks(scan, s + d) == Tasks(scan, s) + Tasks(scan, Kept(scan, s) + d)
    ensures Kept(scan, s + d) == Kept(scan, Kept(scan, s) + d)
  {
    hide Resumable, Shift, Segments;
    ScanOfKept(scan, s, d);
    OrderedAt(scan, s);
    OrderedAt(scan, s + d);
    OrderedAt(scan, Kept(scan, s) + d);
    if scan(s) == [] {
      NoSegments(s);
    } else {
      LastFits(scan(s), |s|);
      ChunkOffsets(s, d, scan(s), scan(s + d), scan(Kept(scan, s) + d));
    }
  }

  lemma NoSegments(s: Bytes)
    ensures Segments(s, []) == []
  {
  }

  /** The splitter thread over the chunks it receives, with any scanner. */
  method SplitterThread(scan: Scanner, chunks: seq<Bytes>) returns (sent: seq<Bytes>, assembled: Bytes)
    requires Resumable(scan)
    ensures sent == Tasks(scan, Concat(chunks))
    ensures assembled == Kept(scan, Concat(chunks))
  {
    sent, assembled := [], [];
    NothingYet(scan);
    for n := 0 to |chunks|
      invariant sent == Tasks(scan, Concat(chunks[..n]))
      invariant assembled == Kept(scan, Concat(chunks[..n]))
    {
      assert chunks[..n + 1][..n] == chunks[..n];
      ChunkStep(scan, Concat(chunks[..n]), chunks[n]);
      assembled := assembled + chunks[n];
      var offsets := scan(assembled);
      assert OrderedOn(scan, assembled);
      if |offsets| == 0 {
        continue;
      }
      var lastOffset := offsets[0];
      ghost var before := sent;
      for i := 1 to |offsets|
        invariant lastOffset == offsets[i - 1]
        invariant sent == before + Segments(assembled, offsets)[..i - 1]
      {
        sent := sent + [assembled[lastOffset..offsets[i]]];
        lastOffset := offsets[i];
      }
      assert Segments(assembled, offsets)[..|offsets| - 1] == Segments(assembled, offsets);
      var endOffset := offsets[|offsets| - 1];
      if endOffset > 0 {
        assembled := assembled[endOffset..];
      }
    }
    assert chunks[..|chunks|] == chunks;
  }

  lemma NothingYet(scan: Scanner)
    requires Resumable(scan)
    ensures Tasks(scan, []) == [] && Kept(scan, []) == []
  {
    assert OrderedOn(scan, []);
  }

  // ---- The emitted tasks and the stream ------------------------------------------------

  /** Bytes from offset i up to offset j are the segments in between. */
  lemma {:induction false} SegmentsCover(s: Bytes, offsets: seq<nat>, n: nat)
    requires Ordered(offsets, |s|) && n < |offsets|
    ensures Concat(Segments(s, offsets)[..n]) == s[offsets[0]..offsets[n]]
  {
    if n > 0 {
      SegmentsCover(s, offsets, n - 1);
      var segs := Segments(s, offsets)[..n];
      assert segs[..n - 1] == Segments(s, offsets)[..n - 1];
      assert segs[n - 1] == s[offsets[n - 1]..offsets[n]];
      assert s[offsets[0]..offsets[n - 1]] + s[offsets[n - 1]..offsets[n]] == s[offsets[0]..offsets[n]];
    }
  }

  /** Nothing is lost: the tasks and the kept bytes are the stream from its first offset on. */
  lemma TasksAndKeptAreTheStream(scan: Scanner, s: Bytes)
    requires Resumable(scan) && scan(s) != []
    ensures scan(s)[0] <= |s| && Concat(Tasks(scan, s)) + Kept(scan, s) == s[scan(s)[0]..]
  {
    var n := |scan(s)| - 1;
    assert OrderedOn(scan, s);
    hide Resumable;
    SegmentsCover(s, scan(s), n);
    assert Tasks(scan, s)[..n] == Tasks(scan, s);
    assert scan(s)[0] <= scan(s)[n];
  }

  /** Chunk independence: two ways of cutting the same stream give the same tasks and kept bytes. */
  lemma ChunkIndependence(scan: Scanner, a: seq<Bytes>, b: seq<Bytes>)
    requires Resumable(scan) && Concat(a) == Concat(b)
    ensures Received(scan, a) == Received(scan, b) == (Tasks(scan, Concat(a)), Kept(scan, Concat(a)))
  {
    ReceivedIsWhole(scan, a);
    ReceivedIsWhole(scan, b);
  }

  /** The thread's state after some chunks, chunk by chunk. */
  ghost function Received(scan: Scanner, chunks: seq<Bytes>): (seq<Bytes>, Bytes)
    requires Resumable(scan)
  {
    if chunks == [] then ([], []) else
      var (sent, kept) := Received(scan, chunks[..|chunks| - 1]);
      var b := kept + chunks[|chunks| - 1];
      (sent + Tasks(scan, b), Kept(scan, b))
  }

  lemma {:induction false} ReceivedIsWhole(scan: Scanner, chunks: seq<Bytes>)
    requires Resumable(scan)
    ensures Received(scan, chunks) == (Tasks(scan, Concat(chunks)), Kept(scan, Concat(chunks)))
  {
    if chunks == [] {
      NothingYet(scan);
    } else {
      var init := chunks[..|chunks| - 1];
      ReceivedIsWhole(scan, init);
      ChunkStep(scan, Concat(init), chunks[|chunks| - 1]);
    }
  }

  // ---- The PSB scanner is such a scanner --------------------------------------------------

  function PsbScan(): Scanner {
    s => Scan(s, 0)
  }

  lemma {:induction false} ScanFits(s: Bytes, i: nat)
    requires i <= |s|
    ensures |Scan(s, i)| <= |s| - i
    decreases |s| - i
  {
    if i + PSB_LEN <= |s| {
      ScanFits(s, if IsPsb(s, i) then i + PSB_LEN else i + 1);
    }
  }

  lemma {:induction false} Increasing(offsets: seq<nat>, i: nat, j: nat)
    requires forall k :: 0 < k < |offsets| ==> offsets[k - 1] + PSB_LEN <= offsets[k]
    requires i < j < |offsets|
    ensures offsets[i] < offsets[j]
    decreases j
  {
    if i < j - 1 {
      Increasing(offsets, i, j - 1);
    }
  }

  lemma PsbScanOrdered(s: Bytes)
    ensures OrderedOn(PsbScan(), s)
  {
    ScanFits(s, 0);
    ScanFindsPsbs(s, 0);
    forall i, j | 0 <= i < j < |Scan(s, 0)| ensures Scan(s, 0)[i] < Scan(s, 0)[j] {
      Increasing(Scan(s, 0), i, j);
    }
  }

  lemma {:induction false} ScanStable(s: Bytes, t: Bytes, i: nat)
    ensures Scan(s, i) <= Scan(s + t, i)
    decreases |s| - i
  {
    if i + PSB_LEN <= |s| {
      assert (s + t)[i..i + PSB_LEN] == s[i..i + PSB_LEN];
      ScanStable(s, t, if IsPsb(s, i) then i + PSB_LEN else i + 1);
    }
  }

  lemma ShiftCons(x: nat, offsets: seq<nat>, d: nat)
    ensures Shift([x] + offsets, d) == [x + d] + Shift(offsets, d)
  {
  }

  /** Scanning from position o + i is scanning the bytes from o on, from position i. */
  lemma {:induction false} ScanShift(s: Bytes, o: nat, i: nat)
    requires o <= |s|
    ensures Scan(s, o + i) == Shift(Scan(s[o..], i), o)
    decreases |s| - i
  {
    if o + i + PSB_LEN <= |s| {
      SubSlice(s, o, i, i + PSB_LEN);
      assert IsPsb(s, o + i) <==> IsPsb(s[o..], i);
      if IsPsb(s, o + i) {
        ScanShift(s, o, i + PSB_LEN);
        ShiftCons(i, Scan(s[o..], i + PSB_LEN), o);
      } else {
        ScanShift(s, o, i + 1);
      }
    }
  }

  /** From the k-th offset on, the offsets are what a scan started there finds. */
  lemma {:induction false} ScanResumes(s: Bytes, i: nat, k: nat)
    requires k < |Scan(s, i)|
    ensures Scan(s, i)[k..] == Scan(s, Scan(s, i)[k])
    decreases |s| - i
  {
    if IsPsb(s, i) {
      if k > 0 {
        ScanResumes(s, i + PSB_LEN, k - 1);
      }
    } else {
      ScanResumes(s, i + 1, k);
    }
  }

  /** The PSB scanner is ordered, stable under append and resumable at each packet. */
  lemma PsbScanIsResumable()
    ensures Resumable(PsbScan())
  {
    var scan := PsbScan();
    forall s ensures OrderedOn(scan, s) {
      PsbScanOrdered(s);
    }
    forall s, t ensures StableOn(scan, s, t) {
      ScanStable(s, t, 0);
    }
    forall s, k: nat ensures ResumesOn(scan, s, k) {
      if k < |scan(s)| && scan(s)[k] <= |s| {
        ScanResumes(s, 0, k);
        ScanShift(s, scan(s)[k], 0);
      }
    }
  }

  /** Each task starts with a PSB, and a scan of it finds no other. */
  lemma TasksStartAtPsb(s: Bytes, i: nat)
    requires i + 1 < |Scan(s, 0)|
    ensures Scan(s, 0)[i] + PSB_LEN <= Scan(s, 0)[i + 1] <= |s|
    ensures Scan(s[Scan(s, 0)[i]..Scan(s, 0)[i + 1]], 0) == [0]
  {
    ScanFindsPsbs(s, 0);
    PsbScanOrdered(s);
    var o, e := Scan(s, 0)[i], Scan(s, 0)[i + 1];
    var tail, task := s[o..], s[o..e];
    ScanResumes(s, 0, i);
    ScanShift(s, o, 0);
    assert tail == task + s[e..];
    ScanStable(task, s[e..], 0);
    assert IsPsb(task, 0) by {
      assert task[0..PSB_LEN] == s[o..o + PSB_LEN];
    }
    assert Shift(Scan(tail, 0), o)[1] == e;
    if |Scan(task, 0)| > 1 {
      OffsetFits(task, 1);
    }
  }

  /** The tasks of a stream are the bytes from each PSB up to the next; the last PSB starts none. */
  lemma TasksAreBetweenPsbs(s: Bytes, i: nat)
    requires i + 1 < |Scan(s, 0)|
    ensures Resumable(PsbScan()) && |Tasks(PsbScan(), s)| == |Scan(s, 0)| - 1
    ensures Scan(s, 0)[i] <= Scan(s, 0)[i + 1] <= |s|
    ensures Tasks(PsbScan(), s)[i] == s[Scan(s, 0)[i]..Scan(s, 0)[i + 1]]
    ensures Scan(Tasks(PsbScan(), s)[i], 0) == [0]
  {
    PsbScanIsResumable();
    TasksStartAtPsb(s, i);
    hide Resumable;
    PsbScanOrdered(s);
  }

  lemma OffsetFits(s: Bytes, k: nat)
    requires k < |Scan(s, 0)|
    ensures Scan(s, 0)[k] + PSB_LEN <= |s|
  {
    ScanFindsPsbs(s, 0);
  }
}

// Finding the PSB packets of a trace. The packet is the two bytes 02 82 repeated
// eight times (Intel SDM Volume 3, Intel Processor Trace, Packet Stream Boundary
// (PSB) Packet). The decoder searches for it from left to right and continues
// behind each one it finds.
module PsbScanner {
  import opened Basics

  const PSB_LEN: nat := 16

  function Psb(): Bytes {
    [2, 0x82, 2, 0x82, 2, 0x82, 2, 0x82, 2, 0x82, 2, 0x82, 2, 0x82, 2, 0x82]
  }

  predicate IsPsb(s: Bytes, i: nat) {
    i + PSB_LEN <= |s| && s[i..i + PSB_LEN] == Psb()
  }

  /** The offsets split reports when it has searched s up to position i. */
  function Scan(s: Bytes, i: nat): seq<nat>
    decreases |s| - i
  {
    if i + PSB_LEN > |s| then []
    else if IsPsb(s, i) then [i] + Scan(s, i + PSB_LEN)
    else Scan(s, i + 1)
  }

  /** The decoder split drives: a position in a buffer and the offset it last synchronised at. */
  class SyncDecoder {
    const data: Bytes
    var pos: nat
    var offset: nat

    constructor (data: Bytes)
      ensures this.data == data && pos == 0
    {
      this.data, pos, offset := data, 0, 0;
    }

    /** sync_forward: moves to the next PSB, or fails at the end of the buffer. */
    method SyncForward() returns (ok: bool)
      modifies this
      ensures ok ==> Scan(data, old(pos)) == [offset] + Scan(data, pos) && old(pos) < pos <= |data|
      ensures !ok ==> Scan(data, old(pos)) == []
    {
      while pos + PSB_LEN <= |data|
        invariant old(pos) <= pos
        invariant Scan(data, old(pos)) == Scan(data, pos)
      {
        if data[pos..pos + PSB_LEN] == Psb() {
          offset := pos;
          pos := pos + PSB_LEN;
          return true;
        }
        pos := pos + 1;
      }
      ok := false;
    }
  }

  /** split: the offsets of all PSB packets found. */
  method Split(data: Bytes) returns (tasks: seq<nat>)
    ensures tasks == Scan(data, 0)
  {
    hide Scan;
    var decoder := new SyncDecoder(data);
    tasks := [];
    var ok := decoder.SyncForward();
    while ok
      invariant decoder.data == data && fresh(decoder)
      invariant ok ==> Scan(data, 0) == tasks + [decoder.offset] + Scan(data, decoder.pos) && decoder.pos <= |data|
      invariant !ok ==> Scan(data, 0) == tasks
      decreases ok, |data| - decoder.pos
    {
      tasks := tasks + [decoder.offset];
      ok := decoder.SyncForward();
    }
  }

  lemma PsbBytes(k: nat)
    requires k < 16
    ensures |Psb()| == 16 && Psb()[k] == if k % 2 == 0 then 0x02 else 0x82
  {
  }

  /** A PSB is the bytes 02 82, eight times. */
  lemma PsbIsEightPairs(s: Bytes, i: nat)
    ensures IsPsb(s, i) <==>
      i + 16 <= |s| && forall k :: 0 <= k < 16 ==> s[i + k] == if k % 2 == 0 then 0x02 else 0x82
  {
    hide Psb;
    PsbBytes(0);
    if i + 16 <= |s| {
      var t := s[i..i + 16];
      forall k | 0 <= k < 16 ensures t[k] == s[i + k] && Psb()[k] == if k % 2 == 0 then 0x02 else 0x82 {
        PsbBytes(k);
      }
    }
  }

  // ---- What the offsets are ------------------------------------------------------

  /** Every offset is a PSB, and offsets are at least one packet apart. */
  lemma {:induction false} ScanFindsPsbs(s: Bytes, i: nat)
    ensures forall k :: 0 <= k < |Scan(s, i)| ==> i <= Scan(s, i)[k] && IsPsb(s, Scan(s, i)[k])
    ensures forall k :: 0 < k < |Scan(s, i)| ==> Scan(s, i)[k - 1] + PSB_LEN <= Scan(s, i)[k]
    decreases |s| - i
  {
    if i + PSB_LEN <= |s| {
      ScanFindsPsbs(s, if IsPsb(s, i) then i + PSB_LEN else i + 1);
    }
  }

  /** No PSB is missed: each one is reported or overlaps a reported one that starts before it. */
  lemma {:induction false} ScanMissesNone(s: Bytes, i: nat, m: nat)
    requires i <= m && IsPsb(s, m)
    ensures exists k :: 0 <= k < |Scan(s, i)| && Scan(s, i)[k] <= m < Scan(s, i)[k] + PSB_LEN
    decreases |s| - i
  {
    if IsPsb(s, i) {
      if m < i + PSB_LEN {
        assert Scan(s, i)[0] == i;
      } else {
        ScanMissesNone(s, i + PSB_LEN, m);
        var k :| 0 <= k < |Scan(s, i + PSB_LEN)| && Scan(s, i + PSB_LEN)[k] <= m < Scan(s, i + PSB_LEN)[k] + PSB_LEN;
        assert Scan(s, i)[k + 1] == Scan(s, i + PSB_LEN)[k];
      }
    } else {
      ScanMissesNone(s, i + 1, m);
      assert Scan(s, i) == Scan(s, i + 1);
    }
  }
}

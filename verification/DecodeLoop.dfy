// The decode loop over an abstract decoder: a machine on a finite trace, known by what
// next and sync_forward answer in each state, by its offset in the trace and by how
// many instructions it still has there. The loop ends because instructions use up the
// trace and each successful resync strictly advances.
module DecodeLoop {
  import opened CountMaps
  import opened SparseMaps

  datatype ErrorCode = Nosync | BadQuery | Other

  datatype Answer = Ins(ip: nat) | Err(code: ErrorCode)

  predicate Resyncs(a: Answer) {
    a.Err? && (a.code.Nosync? || a.code.BadQuery?)
  }

  /** A decoder on a trace of len bytes: next, sync_forward, and what measures its progress. */
  datatype Machine<!S> = Machine(
    next: S -> (Answer, S),
    sync: S -> (bool, S),
    offset: S -> nat,
    left: S -> nat,  // instructions still to come at this offset
    len: nat)

  /** Instructions use up the trace, errors do not move back, and each resync strictly advances. */
  ghost predicate Advances<S(!new)>(m: Machine<S>) {
    forall s :: AdvancesAt(m, s)
  }

  ghost predicate AdvancesAt<S>(m: Machine<S>, s: S) {
    var (a, t) := m.next(s);
    && m.offset(s) <= m.len
    && (if a.Ins? then m.offset(s) < m.offset(t) || (m.offset(s) == m.offset(t) && m.left(t) < m.left(s))
        else m.offset(s) <= m.offset(t) && (m.sync(t).0 ==> m.offset(t) < m.offset(m.sync(t).1)))
  }

  /** The decoder object: a machine and the state it is in. */
  class Decoder<S(!new)> {
    const m: Machine<S>
    var s: S

    constructor (m: Machine<S>, s: S)
      ensures this.m == m && this.s == s
    {
      this.m, this.s := m, s;
    }

    /** decoder.next() */
    method Next() returns (a: Answer)
      modifies this`s
      ensures (a, s) == m.next(old(s))
    {
      var (answer, t) := m.next(s);
      a, s := answer, t;
    }

    /** decoder.sync_forward() */
    method SyncForward() returns (ok: bool)
      modifies this`s
      ensures (ok, s) == m.sync(old(s))
    {
      var (synced, t) := m.sync(s);
      ok, s := synced, t;
    }
  }

  /** The instruction addresses the loop counts from state s. */
  ghost function Counted<S(!new)>(m: Machine<S>, s: S): seq<nat>
    requires Advances(m)
    decreases m.len - m.offset(s), m.left(s)
  {
    var (a, t) := m.next(s);
    assert AdvancesAt(m, s) && AdvancesAt(m, t) && AdvancesAt(m, m.sync(t).1);
    if a.Ins? then [a.ip] + Counted(m, t)
    else if Resyncs(a) && m.sync(t).0 then Counted(m, m.sync(t).1)
    else []
  }

  /** What decode counts in all: nothing unless the first sync_forward succeeds. */
  ghost function CountedTask<S(!new)>(m: Machine<S>, s: S): seq<nat>
    requires Advances(m)
  {
    if m.sync(s).0 then Counted(m, m.sync(s).1) else []
  }

  /** The counter update of the loop: the page is created on first use. */
  method CountIp(dataRst: Dense, ip: nat) returns (rst: Dense)
    ensures rst == AddIp(dataRst, ip)
  {
    var off, page := OffOf(ip), PageOf(ip);
    if page in dataRst {
      rst := dataRst[page := Bump(dataRst[page], off)];
    } else {
      rst := dataRst[page := Bump(ZeroPage(), off)];
    }
  }

  /** The loop of decode and async_decode, from a synchronised decoder. */
  method DecodeSynced<S(!new)>(decoder: Decoder<S>, dataRst: Dense) returns (cnt: nat, rst: Dense)
    requires Advances(decoder.m)
    modifies decoder
    ensures rst == AddIps(dataRst, Counted(decoder.m, old(decoder.s)))
    ensures cnt == |Counted(decoder.m, old(decoder.s))|
  {
    hide AddIps, AddIp, Advances;
    cnt, rst := 0, dataRst;
    ghost var all := Counted(decoder.m, decoder.s);
    ghost var seen: seq<nat> := [];
    AddIpsNone(dataRst);
    while true
      invariant all == seen + Counted(decoder.m, decoder.s)
      invariant rst == AddIps(dataRst, seen) && cnt == |seen|
      decreases decoder.m.len - decoder.m.offset(decoder.s), decoder.m.left(decoder.s)
    {
      AdvancesNext(decoder.m, decoder.s);
      var a := decoder.Next();
      if a.Ins? {
        cnt := cnt + 1;
        rst := CountIp(rst, a.ip);
        AddIpsSnoc(dataRst, seen, a.ip);
        seen := seen + [a.ip];
      } else if a.code.Nosync? || a.code.BadQuery? {
        var synced := decoder.SyncForward();
        if !synced {
          break;
        }
      } else {
        break;
      }
    }
    assert seen == all;
  }

  lemma AdvancesNext<S(!new)>(m: Machine<S>, s: S)
    requires Advances(m)
    ensures AdvancesAt(m, s) && AdvancesAt(m, m.next(s).1) && AdvancesAt(m, m.sync(m.next(s).1).1)
  {
  }

  /** decode and async_decode: counts every decoded instruction into data_rst. */
  method Decode<S(!new)>(decoder: Decoder<S>, dataRst: Dense) returns (cnt: nat, rst: Dense)
    requires Advances(decoder.m)
    modifies decoder
    ensures rst == AddIps(dataRst, CountedTask(decoder.m, old(decoder.s)))
    ensures cnt == |CountedTask(decoder.m, old(decoder.s))|
  {
    var ok := decoder.SyncForward();
    if !ok {
      return 0, dataRst;
    }
    cnt, rst := DecodeSynced(decoder, dataRst);
  }

  lemma AddIpsNone(m: Dense)
    ensures AddIps(m, []) == m
  {
  }

  lemma AddIpsSnoc(m: Dense, ips: seq<nat>, ip: nat)
    ensures AddIps(m, ips + [ip]) == AddIp(AddIps(m, ips), ip)
  {
    assert (ips + [ip])[..|ips|] == ips;
  }

  /** What one worker does with a task: decode into a fresh map and convert it. */
  method ProcTask<S(!new)>(decoder: Decoder<S>) returns (rsp: Sparse)
    requires Advances(decoder.m)
    modifies decoder
    ensures rsp == SparseOf(AddIps(map[], CountedTask(decoder.m, old(decoder.s))))
  {
    var cnt, tmp := Decode(decoder, map[]);
    rsp := ToSparse(tmp);
  }

  // ---- The answers of a run -------------------------------------------------------

  /** What is counted of a sequence of answers to next and to sync_forward. */
  function Decoded(nexts: seq<Answer>, syncs: seq<bool>): seq<nat> {
    if nexts == [] then []
    else if nexts[0].Ins? then [nexts[0].ip] + Decoded(nexts[1..], syncs)
    else if Resyncs(nexts[0]) && syncs != [] && syncs[0] then Decoded(nexts[1..], syncs[1..])
    else []
  }

  /** The same with the first sync_forward. */
  function DecodedTask(nexts: seq<Answer>, syncs: seq<bool>): seq<nat> {
    if syncs != [] && syncs[0] then Decoded(nexts, syncs[1..]) else []
  }

  ghost function InsOf(answers: seq<Answer>): seq<nat> {
    if answers == [] then [] else (if answers[0].Ins? then [answers[0].ip] else []) + InsOf(answers[1..])
  }

  /** How many resyncs were tried before answer i. */
  ghost function ResyncsBefore(nexts: seq<Answer>, i: nat): nat
    requires i <= |nexts|
  {
    if i == 0 then 0 else (if Resyncs(nexts[0]) then 1 else 0) + ResyncsBefore(nexts[1..], i - 1)
  }

  /** Answer i ends the loop: it is fatal, or its resync fails or has nothing left. */
  ghost predicate Stops(nexts: seq<Answer>, syncs: seq<bool>, i: nat)
    requires i < |nexts|
  {
    nexts[i].Err? &&
    (Resyncs(nexts[i]) ==>
       var k := ResyncsBefore(nexts, i);
       k >= |syncs| || !syncs[k])
  }

  /** The loop counts exactly the instructions before the first answer that ends it. */
  lemma {:induction false} CountsUpToFirstStop(nexts: seq<Answer>, syncs: seq<bool>) returns (k: nat)
    ensures k <= |nexts|
    ensures forall i :: 0 <= i < k ==> !Stops(nexts, syncs, i)
    ensures k < |nexts| ==> Stops(nexts, syncs, k)
    ensures Decoded(nexts, syncs) == InsOf(nexts[..k])
  {
    if nexts == [] || Stops(nexts, syncs, 0) {
      k := 0;
    } else {
      var rest := if nexts[0].Ins? then syncs else syncs[1..];
      var j := CountsUpToFirstStop(nexts[1..], rest);
      k := j + 1;
      assert nexts[..k][1..] == nexts[1..][..j];
      forall i | 0 < i < |nexts| ensures Stops(nexts, syncs, i) <==> Stops(nexts[1..], rest, i - 1) {
        assert nexts[i] == nexts[1..][i - 1];
      }
    }
  }

  /** From state s the loop meets exactly these answers, and then ends. */
  ghost predicate Gives<S>(m: Machine<S>, s: S, nexts: seq<Answer>, syncs: seq<bool>)
    decreases |nexts|
  {
    var (a, t) := m.next(s);
    && nexts != [] && nexts[0] == a
    && if a.Ins? then Gives(m, t, nexts[1..], syncs)
       else if !Resyncs(a) then |nexts| == 1 && syncs == []
       else syncs != [] && syncs[0] == m.sync(t).0
            && if syncs[0] then Gives(m, m.sync(t).1, nexts[1..], syncs[1..]) else |nexts| == 1 && |syncs| == 1
  }

  /** When each resync strictly advances, the loop ends after finitely many answers. */
  lemma {:induction false} AdvancingLoopEnds<S(!new)>(m: Machine<S>, s: S)
    returns (nexts: seq<Answer>, syncs: seq<bool>)
    requires Advances(m)
    ensures Gives(m, s, nexts, syncs)
    decreases m.len - m.offset(s), m.left(s)
  {
    var (a, t) := m.next(s);
    assert AdvancesAt(m, s);
    nexts, syncs := [], [];
    if a.Ins? {
      assert AdvancesAt(m, t);
      nexts, syncs := AdvancingLoopEnds(m, t);
    } else if Resyncs(a) {
      var (ok, u) := m.sync(t);
      if ok {
        assert AdvancesAt(m, u);
        nexts, syncs := AdvancingLoopEnds(m, u);
      }
      syncs := [ok] + syncs;
    }
    nexts := [a] + nexts;
  }

  /** Those answers are the only ones, so what the loop counts is determined by the decoder. */
  lemma {:induction false} GivesOnce<S>(m: Machine<S>, s: S, nexts: seq<Answer>, syncs: seq<bool>,
                                         nexts': seq<Answer>, syncs': seq<bool>)
    requires Gives(m, s, nexts, syncs) && Gives(m, s, nexts', syncs')
    ensures nexts == nexts' && syncs == syncs'
    decreases |nexts|
  {
    var (a, t) := m.next(s);
    if a.Ins? {
      GivesOnce(m, t, nexts[1..], syncs, nexts'[1..], syncs');
    } else if Resyncs(a) && syncs[0] {
      GivesOnce(m, m.sync(t).1, nexts[1..], syncs[1..], nexts'[1..], syncs'[1..]);
    }
    assert nexts == [nexts[0]] + nexts[1..] && nexts' == [nexts'[0]] + nexts'[1..];
    if syncs != [] && syncs' != [] {
      assert syncs == [syncs[0]] + syncs[1..] && syncs' == [syncs'[0]] + syncs'[1..];
    }
  }

  /** A resync that succeeds without advancing keeps the loop going for ever, for both codes that resync. */
  lemma {:induction false} StandingResyncNeverEnds<S>(m: Machine<S>, s: S, nexts: seq<Answer>, syncs: seq<bool>)
    requires m.next(s) == (Err(Nosync), s) || m.next(s) == (Err(BadQuery), s)
    requires m.sync(s) == (true, s)
    ensures !Gives(m, s, nexts, syncs)
    decreases |nexts|
  {
    if nexts != [] && syncs != [] {
      StandingResyncNeverEnds(m, s, nexts[1..], syncs[1..]);
    }
  }

  /** The loop counts what these answers say, so the method and its answers agree. */
  lemma {:induction false} CountedIsDecoded<S(!new)>(m: Machine<S>, s: S, nexts: seq<Answer>, syncs: seq<bool>)
    requires Advances(m) && Gives(m, s, nexts, syncs)
    ensures Counted(m, s) == Decoded(nexts, syncs)
    decreases |nexts|
  {
    hide Advances;
    AdvancesNext(m, s);
    var (a, t) := m.next(s);
    if a.Ins? {
      CountedIsDecoded(m, t, nexts[1..], syncs);
    } else if Resyncs(a) && syncs[0] {
      CountedIsDecoded(m, m.sync(t).1, nexts[1..], syncs[1..]);
    }
  }

  /** What each answer of next does to the count, code by code. */
  lemma CountedByAnswer<S(!new)>(m: Machine<S>, s: S)
    requires Advances(m)
    ensures var (a, t) := m.next(s);
      && (a.Ins? ==> Counted(m, s) == [a.ip] + Counted(m, t))
      && (a == Err(Nosync) || a == Err(BadQuery) ==>
            Counted(m, s) == if m.sync(t).0 then Counted(m, m.sync(t).1) else [])
      && (a == Err(Other) ==> Counted(m, s) == [])
  {
  }

  /** The loop counts every instruction among the answers it is given, and nothing else. */
  lemma {:induction false} CountedIsAllInstructions<S(!new)>(m: Machine<S>, s: S, nexts: seq<Answer>, syncs: seq<bool>)
    requires Advances(m) && Gives(m, s, nexts, syncs)
    ensures Counted(m, s) == InsOf(nexts)
    decreases |nexts|
  {
    hide Advances;
    AdvancesNext(m, s);
    var (a, t) := m.next(s);
    if a.Ins? {
      CountedIsAllInstructions(m, t, nexts[1..], syncs);
    } else if Resyncs(a) && syncs[0] {
      CountedIsAllInstructions(m, m.sync(t).1, nexts[1..], syncs[1..]);
    } else {
      assert nexts[1..] == [];
    }
  }

  /**
   * What decode counts of a task: every instruction that next gives once the first
   * synchronisation has succeeded, and nothing when it fails.
   */
  lemma TaskCountsItsInstructions<S(!new)>(m: Machine<S>, s: S, nexts: seq<Answer>, syncs: seq<bool>)
    requires Advances(m)
    ensures m.sync(s).0 && Gives(m, m.sync(s).1, nexts, syncs) ==> CountedTask(m, s) == InsOf(nexts)
    ensures !m.sync(s).0 ==> CountedTask(m, s) == []
  {
    if m.sync(s).0 && Gives(m, m.sync(s).1, nexts, syncs) {
      CountedIsAllInstructions(m, m.sync(s).1, nexts, syncs);
    }
  }

  /** decode adds exactly the histogram of what it decoded and returns its size. */
  lemma DecodeAddsHistogram<S(!new)>(dataRst: Dense, m: Machine<S>, s: S)
    requires Advances(m)
    ensures Meaning(AddIps(dataRst, CountedTask(m, s))) == Meaning(dataRst) + Locs(CountedTask(m, s))
    ensures Total(AddIps(dataRst, CountedTask(m, s))) == Total(dataRst) + |CountedTask(m, s)|
  {
    hide Advances, Meaning, Locs, Total, CountedTask;
    var ips := CountedTask(m, s);
    AddIpsMeaning(dataRst, ips);
    MeaningSize(dataRst);
    MeaningSize(AddIps(dataRst, ips));
    assert |Meaning(dataRst) + Locs(ips)| == |Meaning(dataRst)| + |Locs(ips)|;
  }
}
